/**
 * The listeners of lib/events.js as a map from event names to lists, with the
 * emits that are under way. Nobody listens to `newListener` or `removeListener`.
 */
module Emitter {
  import opened Results

  type Name = string

  /** A function, or what `once` wraps around one: for a name, with a `fired` flag of its own. */
  datatype Listener = Function(id: nat) | Wrapper(id: nat, name: Name, state: nat)

  type Table = map<Name, seq<Listener>>

  /** An emit: the copy of the list it goes through, and how many functions had been called when it reached each listener. */
  datatype Frame = Frame(snapshot: seq<Listener>, at: seq<nat>)

  /**
   * `emits` are the emits under way, the innermost last, `finished` those that
   * have returned; `log` are the functions called so far, by whatever emit.
   */
  datatype State = State(table: Table, fired: seq<bool>, emits: seq<Frame>, log: seq<Listener>, finished: seq<Frame>)

  /** What programs and the listeners themselves do, and the next call of the innermost emit. */
  datatype Action =
    | Add(name: Name, listener: Listener, prepend: bool)
    | Once(name: Name, id: nat, prepend: bool)
    | Remove(name: Name, listener: Listener)
    | RemoveAll(only: Option<Name>)
    | Emit(name: Name)
    | Call

  function Get(t: Table, n: Name): seq<Listener> {
    if n in t then t[n] else []
  }

  function Put(t: Table, n: Name, list: seq<Listener>): Table {
    if list == [] then t - {n} else t[n := list]
  }

  /** `list[i] === listener || list[i].listener === listener`. */
  predicate Matches(x: Listener, l: Listener) {
    x == l || (x.Wrapper? && l == Function(x.id))
  }

  /** The list without its last match. */
  function WithoutLast(list: seq<Listener>, l: Listener): seq<Listener> {
    if list == [] then []
    else
      var init, last := list[..|list| - 1], list[|list| - 1];
      if Matches(last, l) then init else WithoutLast(init, l) + [last]
  }

  function Added(t: Table, n: Name, l: Listener, prepend: bool): Table {
    Put(t, n, if prepend then [l] + Get(t, n) else Get(t, n) + [l])
  }

  function Removed(t: Table, n: Name, l: Listener): Table {
    Put(t, n, WithoutLast(Get(t, n), l))
  }

  predicate Known(s: State, l: Listener) { l.Wrapper? ==> l.state < |s.fired| }

  predicate Enabled(s: State, a: Action) {
    match a
    case Add(_, l, _) => Known(s, l)
    case Call => s.emits != []
    case _ => true
  }

  /** A function is called; a wrapper calls its own once, after it has taken itself out. */
  function Invoke(s: State, l: Listener): State {
    match l
    case Function(_) => s.(log := s.log + [l])
    case Wrapper(_, n, k) =>
      if k >= |s.fired| || s.fired[k] then s
      else s.(table := Removed(s.table, n, l), fired := s.fired[k := true], log := s.log + [l])
  }

  function CallNext(s: State): State
    requires s.emits != []
  {
    var outer, emit := s.emits[..|s.emits| - 1], s.emits[|s.emits| - 1];
    var i := |emit.at|;
    if i >= |emit.snapshot| then s.(emits := outer, finished := s.finished + [emit])
    else Invoke(s.(emits := outer + [emit.(at := emit.at + [|s.log|])]), emit.snapshot[i])
  }

  function Step(s: State, a: Action): State
    requires Enabled(s, a)
  {
    match a
    case Add(n, l, prepend) => s.(table := Added(s.table, n, l, prepend))
    case Once(n, id, prepend) =>
      s.(table := Added(s.table, n, Wrapper(id, n, |s.fired|), prepend), fired := s.fired + [false])
    case Remove(n, l) => s.(table := Removed(s.table, n, l))
    case RemoveAll(only) => s.(table := if only.Some? then s.table - {only.value} else map[])
    case Emit(n) => if n in s.table then s.(emits := s.emits + [Frame(s.table[n], [])]) else s
    case Call => CallNext(s)
  }

  const START: State := State(map[], [], [], [], [])

  ghost predicate Legal(run: seq<Action>)
    decreases |run|, 0
  {
    run == [] || (Legal(run[..|run| - 1]) && Enabled(After(run[..|run| - 1]), run[|run| - 1]))
  }

  ghost function After(run: seq<Action>): State
    requires Legal(run)
    decreases |run|, 1
  {
    if run == [] then START else Step(After(run[..|run| - 1]), run[|run| - 1])
  }

  // --------------------------------------------------------------- at most once

  ghost predicate Fired(s: State) {
    && (forall i :: 0 <= i < |s.log| && s.log[i].Wrapper? ==> s.log[i].state < |s.fired| && s.fired[s.log[i].state])
    && (forall i, j :: 0 <= i < j < |s.log| && s.log[i].Wrapper? && s.log[j].Wrapper? ==> s.log[i].state != s.log[j].state)
  }

  lemma StepFired(s: State, a: Action)
    requires Fired(s) && Enabled(s, a)
    ensures Fired(Step(s, a))
  {
    hide Added, Removed;
  }

  /**
   * Whatever listeners do, including emitting the same event again while it is
   * being emitted, a listener added by `once` is called at most once.
   */
  lemma {:induction false} AtMostOnce(run: seq<Action>, i: nat, j: nat)
    requires Legal(run) && i < j < |After(run).log| && After(run).log[i].Wrapper? && After(run).log[j].Wrapper?
    ensures After(run).log[i].state != After(run).log[j].state
  {
    RunFired(run);
  }

  lemma {:induction false} RunFired(run: seq<Action>)
    requires Legal(run)
    ensures Fired(After(run))
    decreases |run|
  {
    hide Fired, Step, Enabled;
    if run == [] {
      NothingFired();
    } else {
      RunFired(run[..|run| - 1]);
      StepFired(After(run[..|run| - 1]), run[|run| - 1]);
    }
  }

  lemma NothingFired()
    ensures Fired(START)
  {
  }

  // ------------------------------------------------------------- what emits call

  /** Among the first `k` calls one went through the wrapper `l`. */
  ghost predicate FiredBefore(log: seq<Listener>, l: Listener, k: nat) {
    l.Wrapper? && exists j :: 0 <= j < k && j < |log| && log[j].Wrapper? && log[j].state == l.state
  }

  /** A listener that was reached after `k` calls is the next one called, unless it is a wrapper that had fired. */
  ghost predicate CalledAt(log: seq<Listener>, l: Listener, k: nat) {
    k <= |log| && (FiredBefore(log, l, k) || (k < |log| && log[k] == l))
  }

  /** The listeners reached so far have been called in order, except for the wrappers that had fired. */
  ghost predicate Honoured(log: seq<Listener>, f: Frame) {
    && |f.at| <= |f.snapshot|
    && (forall p :: 0 <= p < |f.at| ==> CalledAt(log, f.snapshot[p], f.at[p]))
    && (forall p, q :: 0 <= p < q < |f.at| ==>
          f.at[p] <= f.at[q] && (f.at[p] < f.at[q] || FiredBefore(log, f.snapshot[p], f.at[p])))
  }

  ghost predicate AllKnown(list: seq<Listener>, n: nat) {
    forall i :: 0 <= i < |list| && list[i].Wrapper? ==> list[i].state < n
  }

  /** Wrappers in sight have a flag, and a flag that is set belongs to a call in the log. */
  ghost predicate Traced(s: State) {
    && (forall n :: n in s.table ==> AllKnown(s.table[n], |s.fired|))
    && (forall i :: 0 <= i < |s.emits| ==> AllKnown(s.emits[i].snapshot, |s.fired|))
    && (forall k :: 0 <= k < |s.fired| && s.fired[k] ==>
          exists j :: 0 <= j < |s.log| && s.log[j].Wrapper? && s.log[j].state == k)
  }

  ghost predicate EmitsHonoured(s: State) {
    && (forall i :: 0 <= i < |s.emits| ==> Honoured(s.log, s.emits[i]))
    && (forall i :: 0 <= i < |s.finished| ==>
          Honoured(s.log, s.finished[i]) && |s.finished[i].at| == |s.finished[i].snapshot|)
  }

  lemma {:induction false} WithoutKnown(list: seq<Listener>, l: Listener, n: nat)
    requires AllKnown(list, n)
    ensures AllKnown(WithoutLast(list, l), n)
    decreases |list|
  {
    hide Matches;
    if list != [] {
      WithoutKnown(list[..|list| - 1], l, n);
    }
  }

  lemma TableKnown(t: Table, n: Name, l: Listener, k: nat)
    requires (l.Wrapper? ==> l.state < k) && forall m :: m in t ==> AllKnown(t[m], k)
    ensures forall m, prepend :: m in Added(t, n, l, prepend) ==> AllKnown(Added(t, n, l, prepend)[m], k)
    ensures forall m :: m in Removed(t, n, l) ==> AllKnown(Removed(t, n, l)[m], k)
  {
    hide WithoutLast;
    WithoutKnown(Get(t, n), l, k);
    assert AllKnown(Get(t, n) + [l], k) && AllKnown([l] + Get(t, n), k);
  }

  lemma MoreFlags(list: seq<Listener>, n: nat)
    requires AllKnown(list, n)
    ensures AllKnown(list, n + 1)
  {
  }

  /** More calls change nothing about those that were. */
  lemma HonouredLonger(log: seq<Listener>, l: Listener, f: Frame)
    requires Honoured(log, f)
    ensures Honoured(log + [l], f)
  {
    hide CalledAt, FiredBefore;
    forall p | 0 <= p < |f.at| ensures CalledAt(log + [l], f.snapshot[p], f.at[p]) {
      CalledLonger(log, l, f.snapshot[p], f.at[p]);
    }
    forall p | 0 <= p < |f.at|
      ensures FiredBefore(log, f.snapshot[p], f.at[p]) ==> FiredBefore(log + [l], f.snapshot[p], f.at[p])
    {
      CalledLonger(log, l, f.snapshot[p], f.at[p]);
    }
  }

  lemma CalledLonger(log: seq<Listener>, l: Listener, x: Listener, k: nat)
    requires CalledAt(log, x, k)
    ensures CalledAt(log + [l], x, k)
    ensures FiredBefore(log, x, k) ==> FiredBefore(log + [l], x, k)
  {
    if FiredBefore(log, x, k) {
      var j :| 0 <= j < k && j < |log| && log[j].Wrapper? && log[j].state == x.state;
      assert (log + [l])[j] == log[j];
    }
  }

  /** The next listener of an emit is reached: it is called, or it is a wrapper that has fired. */
  lemma Reach(log: seq<Listener>, log': seq<Listener>, f: Frame, l: Listener)
    requires Honoured(log, f) && |f.at| < |f.snapshot| && l == f.snapshot[|f.at|]
    requires log' == log + [l] || (log' == log && FiredBefore(log, l, |log|))
    ensures Honoured(log', f.(at := f.at + [|log|]))
  {
    hide FiredBefore;
    if log' != log {
      HonouredLonger(log, l, f);
      forall p | 0 <= p < |f.at| && f.at[p] == |log| ensures FiredBefore(log', f.snapshot[p], f.at[p]) {
        CalledLonger(log, l, f.snapshot[p], f.at[p]);
      }
    }
  }

  lemma InvokeFacts(s: State, l: Listener)
    requires Traced(s) && Known(s, l)
    ensures var s' := Invoke(s, l);
            && (s'.log == s.log + [l] || (s'.log == s.log && FiredBefore(s.log, l, |s.log|)))
            && s'.emits == s.emits && s'.finished == s.finished && |s'.fired| == |s.fired|
  {
    hide Removed, AllKnown;
  }

  lemma InvokeTraced(s: State, l: Listener)
    requires Traced(s) && Known(s, l)
    ensures Traced(Invoke(s, l))
  {
    hide Removed, Added, AllKnown;
    var s' := Invoke(s, l);
    if l.Wrapper? {
      TableKnown(s.table, l.name, l, |s.fired|);
    }
    forall k | 0 <= k < |s'.fired| && s'.fired[k]
      ensures exists j :: 0 <= j < |s'.log| && s'.log[j].Wrapper? && s'.log[j].state == k
    {
      if k < |s.fired| && s.fired[k] {
        var j :| 0 <= j < |s.log| && s.log[j].Wrapper? && s.log[j].state == k;
        assert s'.log[j] == s.log[j];
      } else {
        assert s'.log[|s.log|] == l;
      }
    }
  }

  lemma CallHonoured(s: State)
    requires Traced(s) && EmitsHonoured(s) && s.emits != []
    ensures Traced(CallNext(s)) && EmitsHonoured(CallNext(s))
  {
    hide Invoke, Honoured, Traced;
    var outer, f := s.emits[..|s.emits| - 1], s.emits[|s.emits| - 1];
    assert s.emits == outer + [f];
    NextKnown(s);
    if |f.at| < |f.snapshot| {
      var l := f.snapshot[|f.at|];
      var s1 := s.(emits := outer + [f.(at := f.at + [|s.log|])]);
      InvokeFacts(s1, l);
      InvokeTraced(s1, l);
      var s' := Invoke(s1, l);
      Reach(s.log, s'.log, f, l);
      OthersHonoured(s, s'.log);
    }
  }

  lemma NextKnown(s: State)
    requires Traced(s) && EmitsHonoured(s) && s.emits != []
    ensures var outer, f := s.emits[..|s.emits| - 1], s.emits[|s.emits| - 1];
            && |f.at| <= |f.snapshot| && Traced(s.(emits := outer, finished := s.finished + [f]))
            && (|f.at| < |f.snapshot| ==>
                  && Traced(s.(emits := outer + [f.(at := f.at + [|s.log|])])) && Known(s, f.snapshot[|f.at|]))
  {
  }

  lemma OthersHonoured(s: State, log: seq<Listener>)
    requires EmitsHonoured(s) && |s.log| <= |log| <= |s.log| + 1 && log[..|s.log|] == s.log
    ensures EmitsHonoured(s.(log := log))
  {
    hide Honoured;
    if |log| > |s.log| {
      assert log == s.log + [log[|s.log|]];
      forall f | Honoured(s.log, f) ensures Honoured(log, f) {
        HonouredLonger(s.log, log[|s.log|], f);
      }
    } else {
      assert log == s.log;
    }
  }

  lemma StepHonoured(s: State, a: Action)
    requires Traced(s) && EmitsHonoured(s) && Enabled(s, a)
    ensures Traced(Step(s, a)) && EmitsHonoured(Step(s, a))
  {
    match a
    case Call => CallHonoured(s);
    case Emit(n) => EmitHonoured(s, n);
    case _ => TableTraced(s, a);
  }

  lemma EmitHonoured(s: State, n: Name)
    requires Traced(s) && EmitsHonoured(s)
    ensures Traced(Step(s, Emit(n))) && EmitsHonoured(Step(s, Emit(n)))
  {
    hide AllKnown;
  }

  lemma TableTraced(s: State, a: Action)
    requires Traced(s) && EmitsHonoured(s) && Enabled(s, a) && !a.Call? && !a.Emit?
    ensures Traced(Step(s, a)) && EmitsHonoured(Step(s, a))
  {
    hide Removed, Added, AllKnown, Honoured;
    match a
    case Add(n, l, _) => TableKnown(s.table, n, l, |s.fired|);
    case Remove(n, l) => RemoveKnown(s.table, n, l, |s.fired|);
    case RemoveAll(_) =>
    case Once(n, id, _) =>
      forall list | AllKnown(list, |s.fired|) ensures AllKnown(list, |s.fired| + 1) { MoreFlags(list, |s.fired|); }
      TableKnown(s.table, n, Wrapper(id, n, |s.fired|), |s.fired| + 1);
    case _ =>
  }

  lemma RemoveKnown(t: Table, n: Name, l: Listener, k: nat)
    requires forall m :: m in t ==> AllKnown(t[m], k)
    ensures forall m :: m in Removed(t, n, l) ==> AllKnown(Removed(t, n, l)[m], k)
  {
    hide WithoutLast, AllKnown;
    NoneKnown(k);
    WithoutKnown(Get(t, n), l, k);
  }

  lemma NoneKnown(k: nat)
    ensures AllKnown([], k)
  {
  }

  lemma {:induction false} RunHonoured(run: seq<Action>)
    requires Legal(run)
    ensures Traced(After(run)) && EmitsHonoured(After(run))
    decreases |run|
  {
    hide Traced, EmitsHonoured, Step, Enabled;
    if run == [] {
      NothingHonoured();
    } else {
      RunHonoured(run[..|run| - 1]);
      StepHonoured(After(run[..|run| - 1]), run[|run| - 1]);
    }
  }

  lemma NothingHonoured()
    ensures Traced(START) && EmitsHonoured(START)
  {
  }

  // ------------------------------------------------------------------- removing

  /** `p` is the last position that matches. */
  ghost predicate IsLast(list: seq<Listener>, l: Listener, p: int) {
    -1 <= p < |list| && (p >= 0 ==> Matches(list[p], l)) && forall i :: p < i < |list| ==> !Matches(list[i], l)
  }

  lemma {:induction false} WithoutAt(list: seq<Listener>, l: Listener, p: int)
    requires IsLast(list, l, p)
    ensures WithoutLast(list, l) == if p < 0 then list else list[..p] + list[p + 1..]
  {
    hide Matches;
    if list != [] {
      var init, last := list[..|list| - 1], list[|list| - 1];
      assert init + [last] == list;
      if p == |init| {
        assert list[..p] + list[p + 1..] == init;
      } else {
        WithoutAt(init, l, p);
        if p >= 0 {
          assert list[p + 1..] == init[p + 1..] + [last];
          assert init[..p] + init[p + 1..] + [last] == list[..p] + list[p + 1..];
        }
      }
    }
  }

  /** Removing takes out the last match and nothing else. */
  lemma RemovesLast(list: seq<Listener>, l: Listener) returns (p: int)
    ensures IsLast(list, l, p)
    ensures WithoutLast(list, l) == if p < 0 then list else list[..p] + list[p + 1..]
  {
    hide Matches, WithoutLast;
    p := |list| - 1;
    while p >= 0 && !Matches(list[p], l)
      invariant -1 <= p < |list| && forall i :: p < i < |list| ==> !Matches(list[i], l)
    {
      p := p - 1;
    }
    WithoutAt(list, l, p);
  }

  ghost predicate NoEmptyLists(t: Table) {
    forall n :: n in t ==> t[n] != []
  }

  /**
   * Removing a listener undoes adding it at the end. It undoes adding it in
   * front exactly when all that stands before its last match is the listener
   * itself: otherwise another one is gone.
   */
  lemma {:induction false} RemoveUndoesAdd(t: Table, n: Name, l: Listener)
    requires NoEmptyLists(t)
    ensures Removed(Added(t, n, l, false), n, l) == t
    ensures Removed(Added(t, n, l, true), n, l) == t <==> Settled(Get(t, n), l)
  {
    var list := Get(t, n);
    assert (list + [l])[..|list|] == list;
    PrependThenRemove(list, l);
    if n in t {
      assert t[n := list + [l]][n := list] == t;
      assert t[n := [l] + list][n := WithoutLast([l] + list, l)][n] == WithoutLast([l] + list, l);
      if WithoutLast([l] + list, l) == list {
        assert t[n := [l] + list][n := list] == t;
      }
    } else {
      assert t[n := [l]] - {n} == t;
    }
  }

  /** Everything up to the last match of `l` is `l` itself. */
  ghost predicate Settled(list: seq<Listener>, l: Listener) {
    forall i, j :: 0 <= i <= j < |list| && Matches(list[j], l) ==> list[i] == l
  }

  lemma PrependThenRemove(list: seq<Listener>, l: Listener)
    ensures WithoutLast([l] + list, l) == list <==> Settled(list, l)
  {
    hide WithoutLast, Settled;
    var all := [l] + list;
    var p := RemovesLast(all, l);
    assert Matches(all[0], l);
    if WithoutLast(all, l) == list {
      Shifted(all, list, l, p);
    }
    if Settled(list, l) {
      SettledRemoves(all, list, l, p);
    }
  }

  lemma SettledRemoves(all: seq<Listener>, list: seq<Listener>, l: Listener, p: nat)
    requires all == [l] + list && p < |all| && Matches(all[p], l) && Settled(list, l)
    ensures all[..p] + all[p + 1..] == list
  {
    if p > 0 {
      assert list[p - 1] == all[p];
      assert forall i :: 0 <= i < p ==> list[i] == l;
      assert forall i :: 0 < i < p ==> all[i] == list[i - 1];
    }
  }

  lemma {:induction false} Shifted(all: seq<Listener>, list: seq<Listener>, l: Listener, p: nat)
    requires all == [l] + list && p < |all| && all[..p] + all[p + 1..] == list
    requires forall i :: p < i < |all| ==> !Matches(all[i], l)
    ensures Settled(list, l)
  {
    var i := 0;
    while i < p
      invariant 0 <= i <= p && forall k :: 0 <= k < i ==> list[k] == l
    {
      assert list[i] == (all[..p] + all[p + 1..])[i] == all[i];
      i := i + 1;
    }
    forall i, j | 0 <= i <= j < |list| && Matches(list[j], l) ensures list[i] == l {
      assert list[j] == all[j + 1];
    }
  }
}
