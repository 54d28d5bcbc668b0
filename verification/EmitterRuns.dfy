/** What a whole run says of the emits in it and of the listeners that `once` added. */
module EmitterRuns {
  import opened Results
  import opened Emitter

  // -------------------------------------------------------- what an emit starts with

  /** The lists of the names that were emitted, as the table had them then. */
  ghost function Begun(run: seq<Action>): seq<seq<Listener>>
    requires Legal(run)
    decreases |run|
  {
    if run == [] then []
    else
      var before, a := run[..|run| - 1], run[|run| - 1];
      Begun(before) + (if a.Emit? && a.name in After(before).table then [After(before).table[a.name]] else [])
  }

  function Snapshots(frames: seq<Frame>): (r: seq<seq<Listener>>)
    ensures |r| == |frames| && forall i :: 0 <= i < |r| ==> r[i] == frames[i].snapshot
  {
    seq(|frames|, i requires 0 <= i < |frames| => frames[i].snapshot)
  }

  /** The emits under way and those that have returned, by the lists they go through. */
  ghost function Copies(s: State): multiset<seq<Listener>> {
    multiset(Snapshots(s.emits)) + multiset(Snapshots(s.finished))
  }

  lemma SnapshotsLast(frames: seq<Frame>, f: Frame)
    ensures multiset(Snapshots(frames + [f])) == multiset(Snapshots(frames)) + multiset{f.snapshot}
  {
    assert Snapshots(frames + [f]) == Snapshots(frames) + [f.snapshot];
  }

  /** Calling listeners copies nothing and forgets nothing. */
  lemma CallCopies(s: State)
    requires s.emits != []
    ensures Copies(CallNext(s)) == Copies(s)
  {
    hide Removed;
    var outer, emit := s.emits[..|s.emits| - 1], s.emits[|s.emits| - 1];
    assert s.emits == outer + [emit];
    SnapshotsLast(outer, emit);
    SnapshotsLast(outer, emit.(at := emit.at + [|s.log|]));
    SnapshotsLast(s.finished, emit);
  }

  lemma StepCopies(s: State, a: Action)
    requires Enabled(s, a)
    ensures Copies(Step(s, a)) ==
            Copies(s) + if a.Emit? && a.name in s.table then multiset{s.table[a.name]} else multiset{}
  {
    hide Added, Removed, CallNext, Snapshots;
    if a.Call? {
      CallCopies(s);
    } else if a.Emit? && a.name in s.table {
      SnapshotsLast(s.emits, Frame(s.table[a.name], []));
    }
  }

  /** Every emit of a name with listeners has made one copy, of the list as it was. */
  lemma {:induction false} RunCopies(run: seq<Action>)
    requires Legal(run)
    ensures Copies(After(run)) == multiset(Begun(run))
    decreases |run|
  {
    hide Step, Enabled, Copies;
    if run == [] {
      NothingCopied();
    } else {
      var before, a := run[..|run| - 1], run[|run| - 1];
      RunCopies(before);
      StepCopies(After(before), a);
    }
  }

  lemma NothingCopied()
    ensures Copies(START) == multiset{}
  {
  }

  // ------------------------------------------------------------- when and by whom

  /** The emit `f` began with step `k`, and reached its listeners after that. */
  ghost predicate BeganAt(run: seq<Action>, k: nat, f: Frame)
    requires Legal(run)
  {
    k < |run| && run[k].Emit? && Legal(run[..k]) &&
    var was := After(run[..k]);
    && run[k].name in was.table && f.snapshot == was.table[run[k].name]
    && forall p :: 0 <= p < |f.at| ==> |was.log| <= f.at[p]
  }

  ghost predicate Frames(s: State, f: Frame) {
    f in s.emits || f in s.finished
  }

  lemma {:induction false} Earlier(run: seq<Action>, k: nat)
    requires Legal(run) && k <= |run|
    ensures Legal(run[..k]) && |After(run[..k]).log| <= |After(run).log|
    decreases |run|
  {
    hide Step, Enabled, After;
    if k < |run| {
      var before := run[..|run| - 1];
      assert before[..k] == run[..k];
      Earlier(before, k);
      LogGrows(After(before), run[|run| - 1]);
      LastStep(run);
    } else {
      assert run[..k] == run;
    }
  }

  lemma LastStep(run: seq<Action>)
    requires Legal(run) && run != []
    ensures After(run) == Step(After(run[..|run| - 1]), run[|run| - 1])
  {
  }

  lemma LogGrows(s: State, a: Action)
    requires Enabled(s, a)
    ensures |s.log| <= |Step(s, a).log|
  {
    hide Added, Removed;
  }

  /** The emits after a step: those before it, the one that it begins, and the innermost one with a listener more. */
  lemma StepFrames(s: State, a: Action, f: Frame)
    requires Enabled(s, a) && Frames(Step(s, a), f)
    ensures Frames(s, f)
            || (a.Emit? && a.name in s.table && f == Frame(s.table[a.name], []))
            || (a.Call? && s.emits != [] && var emit := s.emits[|s.emits| - 1]; f == emit.(at := emit.at + [|s.log|]))
  {
    hide Added, Removed;
    if a.Call? {
      var outer, emit := s.emits[..|s.emits| - 1], s.emits[|s.emits| - 1];
      assert s.emits == outer + [emit];
      assert Frames(s, emit);
    }
  }

  lemma BeganLonger(run: seq<Action>, k: nat, f: Frame, a: Action)
    requires Legal(run + [a]) && Legal(run) && BeganAt(run, k, f)
    ensures BeganAt(run + [a], k, f)
    ensures |After(run[..k]).log| <= |After(run).log|
    ensures BeganAt(run + [a], k, f.(at := f.at + [|After(run).log|]))
  {
    hide After, Legal;
    Earlier(run, k);
    assert (run + [a])[..k] == run[..k];
  }

  /** Every emit there is began with a step of the run. */
  lemma {:induction false} RunBegan(run: seq<Action>, f: Frame) returns (k: nat)
    requires Legal(run) && Frames(After(run), f)
    ensures BeganAt(run, k, f)
    decreases |run|
  {
    hide Step, Enabled, Legal;
    LegalLast(run);
    if run == [] {
      NoFrames(f);
    } else {
      var before, a := run[..|run| - 1], run[|run| - 1];
      assert before + [a] == run;
      var s := After(before);
      StepFrames(s, a, f);
      if Frames(s, f) {
        k := RunBegan(before, f);
        BeganLonger(before, k, f, a);
      } else if a.Emit? {
        k := |before|;
        assert run[..k] == before;
      } else {
        var emit := s.emits[|s.emits| - 1];
        assert Frames(s, emit);
        k := RunBegan(before, emit);
        BeganLonger(before, k, emit, a);
      }
    }
  }

  lemma LegalLast(run: seq<Action>)
    requires Legal(run)
    ensures run != [] ==> Legal(run[..|run| - 1]) && Enabled(After(run[..|run| - 1]), run[|run| - 1])
  {
  }

  lemma NoFrames(f: Frame)
    ensures !Frames(START, f)
  {
  }

  /** Call number `k` was made by `f` for the `p`-th listener that it goes through. */
  ghost predicate Made(s: State, f: Frame, p: nat, k: nat) {
    p < |f.at| && p < |f.snapshot| && k < |s.log| && f.at[p] == k && f.snapshot[p] == s.log[k]
  }

  ghost predicate MadeBySome(s: State, k: nat) {
    exists f, p :: Frames(s, f) && Made(s, f, p, k)
  }

  /** The frames after a call: the others as they were, and the innermost with one listener more if there is one. */
  lemma CallFrames(s: State, f: Frame)
    requires s.emits != [] && Frames(s, f)
    ensures var emit := s.emits[|s.emits| - 1]; var more := emit.(at := emit.at + [|s.log|]);
            && (Frames(CallNext(s), f) || (f == emit && Frames(CallNext(s), more)))
            && (|CallNext(s).log| > |s.log| ==>
                  && Frames(CallNext(s), more) && |emit.at| < |emit.snapshot|
                  && CallNext(s).log == s.log + [emit.snapshot[|emit.at|]])
            && s.log <= CallNext(s).log && |CallNext(s).log| <= |s.log| + 1
  {
    hide Removed;
    var outer, emit := s.emits[..|s.emits| - 1], s.emits[|s.emits| - 1];
    assert s.emits == outer + [emit];
    var more := emit.(at := emit.at + [|s.log|]);
    assert more in outer + [more] && emit in s.finished + [emit];
  }

  lemma StepMade(s: State, a: Action, k: nat)
    requires Enabled(s, a) && k < |Step(s, a).log| && (k < |s.log| ==> MadeBySome(s, k))
    ensures MadeBySome(Step(s, a), k)
  {
    hide Added, Removed, CallNext, Frames;
    var s' := Step(s, a);
    if a.Call? {
      var emit := s.emits[|s.emits| - 1];
      var more := emit.(at := emit.at + [|s.log|]);
      if k < |s.log| {
        var f, p :| Frames(s, f) && Made(s, f, p, k);
        CallFrames(s, f);
        if !Frames(s', f) {
          assert Made(s', more, p, k);
        } else {
          assert Made(s', f, p, k);
        }
      } else {
        InnermostThere(s);
        CallFrames(s, emit);
        assert Made(s', more, |emit.at|, k);
      }
    } else {
      var f, p :| Frames(s, f) && Made(s, f, p, k);
      FramesKept(s, a, f);
      assert Made(s', f, p, k);
    }
  }

  lemma InnermostThere(s: State)
    requires s.emits != []
    ensures Frames(s, s.emits[|s.emits| - 1])
  {
  }

  lemma FramesKept(s: State, a: Action, f: Frame)
    requires Enabled(s, a) && !a.Call? && Frames(s, f)
    ensures Frames(Step(s, a), f)
  {
    hide Added, Removed;
  }

  lemma {:induction false} RunMade(run: seq<Action>, k: nat)
    requires Legal(run) && k < |After(run).log|
    ensures MadeBySome(After(run), k)
    decreases |run|
  {
    hide Step, Enabled, Legal, MadeBySome, Honoured;
    LegalLast(run);
    if run != [] {
      var before := run[..|run| - 1];
      if k < |After(before).log| {
        RunMade(before, k);
      }
      StepMade(After(before), run[|run| - 1], k);
    }
  }

  /**
   * Whatever listeners do to the table and whatever they emit: every emit of a
   * name that has listeners makes one copy of their list as it stands then, goes
   * through the listeners of that copy in order, and calls each one there and
   * then, except for the wrappers of `once` that had fired before; when it has
   * returned it has reached all of them.
   */
  lemma {:induction false} EmitCallsSnapshot(run: seq<Action>)
    requires Legal(run)
    ensures Copies(After(run)) == multiset(Begun(run))
    ensures forall f :: Frames(After(run), f) ==> Honoured(After(run).log, f) && exists k :: BeganAt(run, k, f)
    ensures forall f :: f in After(run).finished ==> |f.at| == |f.snapshot|
    ensures forall k :: 0 <= k < |After(run).log| ==> MadeBySome(After(run), k)
  {
    hide Copies, Begun, Honoured, BeganAt, MadeBySome, Legal, After;
    RunCopies(run);
    RunHonoured(run);
    forall f | Frames(After(run), f) ensures Honoured(After(run).log, f) && exists k :: BeganAt(run, k, f) {
      var k := RunBegan(run, f);
    }
    forall k | 0 <= k < |After(run).log| ensures MadeBySome(After(run), k) {
      RunMade(run, k);
    }
  }

  // ------------------------------------------------------------------ step by step

  /** What a step does to the list of each name. */
  lemma StepLists(s: State, a: Action, m: Name)
    requires Enabled(s, a)
    ensures var list, list' := Get(s.table, m), Get(Step(s, a).table, m);
            match a {
              case Add(n, l, prepend) => list' == if m != n then list else if prepend then [l] + list else list + [l]
              case Once(n, id, prepend) =>
                var l := Wrapper(id, n, |s.fired|);
                && list' == (if m != n then list else if prepend then [l] + list else list + [l])
                && Step(s, a).fired == s.fired + [false]
              case Remove(n, l) =>
                if m != n then list' == list
                else exists p :: IsLast(list, l, p) && list' == if p < 0 then list else list[..p] + list[p + 1..]
              case RemoveAll(only) => list' == if only == None || only == Some(m) then [] else list
              case Emit(_) => list' == list
              case Call => list' == list || exists l :: l in s.emits[|s.emits| - 1].snapshot && list' == WithoutLast(list, l)
            }
  {
    hide WithoutLast, IsLast;
    match a
    case Remove(n, l) =>
      var p := RemovesLast(Get(s.table, n), l);
    case Call =>
      var emit := s.emits[|s.emits| - 1];
      if |emit.at| < |emit.snapshot| {
        var l := emit.snapshot[|emit.at|];
        assert l in emit.snapshot;
        InvokeLists(s.(emits := s.emits[..|s.emits| - 1] + [emit.(at := emit.at + [|s.log|])]), l, m);
      }
    case _ =>
  }

  lemma InvokeLists(s: State, l: Listener, m: Name)
    ensures var list, list' := Get(s.table, m), Get(Invoke(s, l).table, m);
            list' == list || list' == WithoutLast(list, l)
  {
    hide WithoutLast;
  }

  /** A function stands for itself and for every wrapper of it; a wrapper stands for itself only. */
  lemma WhatMatches(x: Listener, l: Listener)
    ensures Matches(x, l) <==> x == l || (l.Function? && x.Wrapper? && x.id == l.id)
  {
  }

  /** So `off` with the function undoes `once` as it undoes `on`. */
  lemma OffUndoesOnce(s: State, n: Name, id: nat)
    requires NoEmptyLists(s.table)
    ensures Step(Step(s, Once(n, id, false)), Remove(n, Function(id))).table == s.table
  {
    hide WithoutLast;
    var list, l := Get(s.table, n), Wrapper(id, n, |s.fired|);
    WithoutAt(list + [l], Function(id), |list|);
    assert (list + [l])[..|list|] + (list + [l])[|list| + 1..] == list;
    if n in s.table {
      assert s.table[n := list + [l]][n := list] == s.table;
    } else {
      assert s.table[n := [] + [l]] - {n} == s.table;
    }
  }

  // ---------------------------------------------------------------------- once

  /** `on` is given functions only, and so a wrapper stands where `once` put it. */
  predicate AddsFunctions(run: seq<Action>) {
    forall i :: 0 <= i < |run| && run[i].Add? ==> run[i].listener.Function?
  }

  /** The wrappers of a list are those that were made, for that name, each once, and none of them has fired. */
  ghost predicate Fresh(list: seq<Listener>, n: Name, made: seq<Listener>, fired: seq<bool>) {
    && |made| == |fired|
    && (forall i :: 0 <= i < |list| && list[i].Wrapper? ==>
          var l := list[i]; l.name == n && l.state < |made| && l == made[l.state] && !fired[l.state])
    && (forall i, j :: 0 <= i < j < |list| && list[i].Wrapper? ==> list[i] != list[j])
  }

  ghost predicate AllMade(list: seq<Listener>, made: seq<Listener>) {
    forall i :: 0 <= i < |list| && list[i].Wrapper? ==> list[i].state < |made| && list[i] == made[list[i].state]
  }

  ghost predicate Single(s: State, made: seq<Listener>) {
    && |made| == |s.fired|
    && (forall n :: n in s.table ==> Fresh(s.table[n], n, made, s.fired))
    && (forall i :: 0 <= i < |s.emits| ==> AllMade(s.emits[i].snapshot, made))
  }

  /** The wrappers that `once` made, in order. */
  ghost function Wrappers(run: seq<Action>): (made: seq<Listener>)
    requires Legal(run)
  {
    if run == [] then []
    else
      var before, a := run[..|run| - 1], run[|run| - 1];
      Wrappers(before) + if a.Once? then [Wrapper(a.id, a.name, |After(before).fired|)] else []
  }

  lemma FreshWithout(list: seq<Listener>, n: Name, made: seq<Listener>, fired: seq<bool>, l: Listener)
    requires Fresh(list, n, made, fired)
    ensures Fresh(WithoutLast(list, l), n, made, fired)
    ensures l.Wrapper? ==> l !in WithoutLast(list, l)
  {
    hide WithoutLast, Fresh;
    var p := RemovesLast(list, l);
    if p >= 0 {
      FreshCut(list, n, made, fired, p);
    }
    if l.Wrapper? {
      LastGone(list, n, made, fired, l, p);
    }
  }

  lemma FreshCut(list: seq<Listener>, n: Name, made: seq<Listener>, fired: seq<bool>, p: nat)
    requires Fresh(list, n, made, fired) && p < |list|
    ensures Fresh(list[..p] + list[p + 1..], n, made, fired)
  {
    var rest := list[..p] + list[p + 1..];
    assert forall i :: 0 <= i < |rest| ==> rest[i] == list[if i < p then i else i + 1];
  }

  lemma LastGone(list: seq<Listener>, n: Name, made: seq<Listener>, fired: seq<bool>, l: Listener, p: int)
    requires Fresh(list, n, made, fired) && l.Wrapper? && IsLast(list, l, p)
    ensures l !in if p < 0 then list else list[..p] + list[p + 1..]
  {
    assert Matches(l, l);
    assert p >= 0 ==> list[p] == l;
  }

  lemma FreshAdd(list: seq<Listener>, n: Name, made: seq<Listener>, fired: seq<bool>, l: Listener)
    requires Fresh(list, n, made, fired) && l !in list
    requires l.Wrapper? ==> l.name == n && l.state < |made| && l == made[l.state] && !fired[l.state]
    ensures Fresh([l] + list, n, made, fired) && Fresh(list + [l], n, made, fired)
  {
  }

  lemma FreshAddFunction(list: seq<Listener>, n: Name, made: seq<Listener>, fired: seq<bool>, l: Listener)
    requires Fresh(list, n, made, fired) && l.Function?
    ensures Fresh([l] + list, n, made, fired) && Fresh(list + [l], n, made, fired)
  {
  }

  lemma FreshMore(list: seq<Listener>, n: Name, made: seq<Listener>, fired: seq<bool>, l: Listener)
    requires Fresh(list, n, made, fired)
    ensures Fresh(list, n, made + [l], fired + [false])
    ensures l.Wrapper? && l.state == |made| ==> l !in list
  {
  }

  lemma FreshFired(list: seq<Listener>, n: Name, made: seq<Listener>, fired: seq<bool>, k: nat)
    requires Fresh(list, n, made, fired) && k < |fired| && made[k] !in list
    ensures Fresh(list, n, made, fired[k := true])
  {
  }

  lemma FreshNothing(n: Name, made: seq<Listener>, fired: seq<bool>)
    requires |made| == |fired|
    ensures Fresh([], n, made, fired)
  {
  }

  lemma StepSingle(s: State, a: Action, made: seq<Listener>)
    requires Single(s, made) && Enabled(s, a) && (a.Add? ==> a.listener.Function?)
    ensures Single(Step(s, a), made + if a.Once? then [Wrapper(a.id, a.name, |s.fired|)] else [])
  {
    hide Fresh, WithoutLast, AllMade;
    assert made + [] == made;
    match a
    case Add(n, l, _) =>
      FreshNothing(n, made, s.fired);
      FreshAddFunction(Get(s.table, n), n, made, s.fired, l);
    case Once(n, id, _) => OnceSingle(s, a, made);
    case Remove(n, l) =>
      FreshNothing(n, made, s.fired);
      FreshWithout(Get(s.table, n), n, made, s.fired, l);
    case RemoveAll(_) =>
    case Emit(n) => EmitSingle(s, n, made);
    case Call => CallSingle(s, made);
  }

  lemma EmitSingle(s: State, n: Name, made: seq<Listener>)
    requires Single(s, made)
    ensures Single(Step(s, Emit(n)), made)
  {
    hide Added, Removed;
    if n in s.table {
      assert AllMade(s.table[n], made);
    }
  }

  lemma OnceSingle(s: State, a: Action, made: seq<Listener>)
    requires Single(s, made) && a.Once?
    ensures Single(Step(s, a), made + [Wrapper(a.id, a.name, |s.fired|)])
  {
    hide Fresh, AllMade;
    var l, n := Wrapper(a.id, a.name, |s.fired|), a.name;
    forall m | m in s.table ensures Fresh(s.table[m], m, made + [l], s.fired + [false]) {
      FreshMore(s.table[m], m, made, s.fired, l);
    }
    FreshNothing(n, made, s.fired);
    FreshMore(Get(s.table, n), n, made, s.fired, l);
    FreshAdd(Get(s.table, n), n, made + [l], s.fired + [false], l);
    forall list | AllMade(list, made) ensures AllMade(list, made + [l]) { MoreMade(list, made, l); }
  }

  lemma MoreMade(list: seq<Listener>, made: seq<Listener>, l: Listener)
    requires AllMade(list, made)
    ensures AllMade(list, made + [l])
  {
  }

  lemma CallSingle(s: State, made: seq<Listener>)
    requires Single(s, made) && s.emits != []
    ensures Single(CallNext(s), made)
  {
    hide Fresh, AllMade, Invoke;
    var outer, emit := s.emits[..|s.emits| - 1], s.emits[|s.emits| - 1];
    assert s.emits == outer + [emit];
    if |emit.at| < |emit.snapshot| {
      var s1 := s.(emits := outer + [emit.(at := emit.at + [|s.log|])]);
      assert Single(s1, made);
      NextMade(emit.snapshot, |emit.at|, made);
      InvokeSingle(s1, emit.snapshot[|emit.at|], made);
    }
  }

  lemma NextMade(list: seq<Listener>, i: nat, made: seq<Listener>)
    requires AllMade(list, made) && i < |list|
    ensures list[i].Wrapper? ==> list[i].state < |made| && list[i] == made[list[i].state]
  {
  }

  lemma InvokeSingle(s: State, l: Listener, made: seq<Listener>)
    requires Single(s, made) && (l.Wrapper? ==> l.state < |made| && l == made[l.state])
    ensures Single(Invoke(s, l), made)
  {
    hide Fresh, AllMade, WithoutLast;
    if l.Wrapper? && !s.fired[l.state] {
      var n, k := l.name, l.state;
      FreshNothing(n, made, s.fired);
      FreshWithout(Get(s.table, n), n, made, s.fired, l);
      var t := Removed(s.table, n, l);
      forall m | m in t ensures Fresh(t[m], m, made, s.fired[k := true]) {
        if m != n { NotThere(t[m], m, made, s.fired, l); }
        FreshFired(t[m], m, made, s.fired, k);
      }
    }
  }

  lemma NotThere(list: seq<Listener>, m: Name, made: seq<Listener>, fired: seq<bool>, l: Listener)
    requires Fresh(list, m, made, fired) && l.Wrapper? && l.name != m
    ensures l !in list
  {
  }

  lemma {:induction false} RunSingle(run: seq<Action>)
    requires Legal(run) && AddsFunctions(run)
    ensures Single(After(run), Wrappers(run))
    decreases |run|
  {
    hide Single, Step, Enabled, Legal;
    LegalLast(run);
    if run == [] {
      NoneMade();
    } else {
      var before := run[..|run| - 1];
      assert forall i :: 0 <= i < |before| ==> before[i] == run[i];
      RunSingle(before);
      StepSingle(After(before), run[|run| - 1], Wrappers(before));
    }
  }

  lemma NoneMade()
    ensures Single(START, [])
  {
  }

  /**
   * A listener added by `once` has gone from the table when its function is
   * called: in a run in which `on` is given functions only, none that has been
   * called is in any list.
   */
  lemma {:induction false} OnceGone(run: seq<Action>, n: Name, l: Listener)
    requires Legal(run) && AddsFunctions(run) && l.Wrapper? && l in After(run).log
    ensures l !in Get(After(run).table, n)
  {
    hide Legal, After, Wrappers;
    RunSingle(run);
    RunFired(run);
  }
}
