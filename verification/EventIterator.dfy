/**
 * The async iterator of `on` in lib/events.js: events and waiting calls meet in
 * two queues, and a pair of watermarks pauses and resumes the emitter.
 */
module EventIterator {
  import opened Results

  /** What an `error` event carries, and whether it is a truthy value. */
  datatype Reason = Reason(id: nat, truthy: bool)

  /** What has become of the promise of a call of `next`. */
  datatype Promise<+V> = Pending | Event(value: V) | Rejected(reason: Reason) | Done

  /**
   * `promises` are those of the calls of `next` so far, `waiting` the numbers of
   * the calls in `unconsumedPromises`. The variable `size` is the length of `queue`.
   */
  datatype State<+V> = State(queue: seq<V>, waiting: seq<nat>, paused: bool, error: Option<Reason>, finished: bool,
                             promises: seq<Promise<V>>)

  datatype Marks = Marks(low: nat, high: nat)

  datatype Action<+V> = Emit(value: V) | Next | Fail(reason: Reason) | Close

  function Fresh<V>(): State<V> { State([], [], false, None, false, []) }

  /** A waiting call's promise is settled. */
  function Settle<V>(s: State<V>, p: Promise<V>): State<V>
    requires s.waiting != [] && s.waiting[0] < |s.promises|
  {
    s.(waiting := s.waiting[1..], promises := s.promises[s.waiting[0] := p])
  }

  function OnEvent<V>(m: Marks, s: State<V>, v: V): State<V>
    requires s.waiting != [] ==> s.waiting[0] < |s.promises|
  {
    if s.waiting == [] then s.(queue := s.queue + [v], paused := s.paused || |s.queue| + 1 > m.high)
    else Settle(s, Event(v))
  }

  function OnNext<V>(m: Marks, s: State<V>): State<V> {
    if s.queue != [] then
      s.(queue := s.queue[1..], paused := s.paused && |s.queue| - 1 >= m.low, promises := s.promises + [Event(s.queue[0])])
    else if s.error.Some? && s.error.value.truthy then s.(error := None, promises := s.promises + [Rejected(s.error.value)])
    else if s.finished then
      var s1 := OnClose(s);
      s1.(promises := s1.promises + [Done])
    else s.(waiting := s.waiting + [|s.promises|], promises := s.promises + [Pending])
  }

  /** Every call that waits is told that there is nothing more. */
  function Dismiss<V>(promises: seq<Promise<V>>, waiting: seq<nat>): (r: seq<Promise<V>>)
    ensures |r| == |promises|
    decreases |waiting|
  {
    if waiting == [] then promises
    else Dismiss(if waiting[0] < |promises| then promises[waiting[0] := Done] else promises, waiting[1..])
  }

  function OnClose<V>(s: State<V>): State<V> {
    s.(finished := true, waiting := [], promises := Dismiss(s.promises, s.waiting))
  }

  function OnError<V>(s: State<V>, reason: Reason): State<V>
    requires s.waiting != [] ==> s.waiting[0] < |s.promises|
  {
    OnClose(if s.waiting == [] then s.(error := Some(reason)) else Settle(s, Rejected(reason)))
  }

  /** The listeners are gone once it has finished; `next` and `return` can still be called. */
  predicate Enabled<V>(s: State<V>, a: Action<V>) {
    && (a.Emit? || a.Fail? ==> !s.finished)
    && (s.waiting != [] ==> s.waiting[0] < |s.promises|)
  }

  function Step<V>(m: Marks, s: State<V>, a: Action<V>): State<V>
    requires Enabled(s, a)
  {
    match a
    case Emit(v) => OnEvent(m, s, v)
    case Next => OnNext(m, s)
    case Fail(reason) => OnError(s, reason)
    case Close => OnClose(s)
  }

  ghost predicate Legal<V>(m: Marks, run: seq<Action<V>>)
    decreases |run|, 0
  {
    run == [] || (Legal(m, run[..|run| - 1]) && Enabled(After(m, run[..|run| - 1]), run[|run| - 1]))
  }

  ghost function After<V>(m: Marks, run: seq<Action<V>>): State<V>
    requires Legal(m, run)
    decreases |run|, 1
  {
    if run == [] then Fresh() else Step(m, After(m, run[..|run| - 1]), run[|run| - 1])
  }

  // ------------------------------------------------------------- what a run says

  /** The events that came, in order. */
  function Accepted<V>(run: seq<Action<V>>): seq<V> {
    if run == [] then []
    else
      var last := run[|run| - 1];
      Accepted(run[..|run| - 1]) + (if last.Emit? then [last.value] else [])
  }

  function Calls<V>(run: seq<Action<V>>): nat {
    if run == [] then 0 else Calls(run[..|run| - 1]) + (if run[|run| - 1].Next? then 1 else 0)
  }

  /** An error or a close has come. */
  predicate Ended<V>(run: seq<Action<V>>) {
    exists i :: 0 <= i < |run| && (run[i].Fail? || run[i].Close?)
  }

  /** The error; one that is not truthy is forgotten unless a call waits for it. */
  function Failure<V>(run: seq<Action<V>>): Option<Reason> {
    if run == [] then None
    else
      var before, last := run[..|run| - 1], run[|run| - 1];
      if last.Fail? && (last.reason.truthy || Calls(before) > |Accepted(before)|) then Some(last.reason) else Failure(before)
  }

  /** What call `k` gets, whatever came before or after it. */
  function Answer<V>(run: seq<Action<V>>, k: nat): Promise<V> {
    var events := Accepted(run);
    if k < |events| then Event(events[k])
    else if !Ended(run) then Pending
    else if k == |events| && Failure(run).Some? then Rejected(Failure(run).value)
    else Done
  }

  function Min(a: nat, b: nat): nat { if a < b then a else b }

  /** The numbers from `a` up to `c`. */
  function Range(a: nat, c: nat): (r: seq<nat>)
    ensures |r| == (if a < c then c - a else 0) && forall i :: 0 <= i < |r| ==> r[i] == a + i
  {
    if c <= a then [] else seq(c - a, i => a + i)
  }

  lemma InRange(a: nat, c: nat, k: nat)
    ensures k in Range(a, c) <==> a <= k < c
  {
    if a <= k < c {
      assert Range(a, c)[k - a] == k;
    }
  }

  ghost predicate Kept<V>(run: seq<Action<V>>, s: State<V>) {
    var a, c := |Accepted(run)|, Calls(run);
    && |s.promises| == c
    && (forall k :: 0 <= k < c ==> s.promises[k] == Answer(run, k))
    && s.queue == Accepted(run)[Min(a, c)..]
    && s.finished == Ended(run) && (Failure(run).Some? ==> Ended(run))
    && s.waiting == (if s.finished then [] else Range(a, c))
    && (if s.error.Some? && s.error.value.truthy then c <= a && Failure(run) == s.error else Failure(run).None? || c > a)
  }

  lemma {:induction false} DismissAt<V>(promises: seq<Promise<V>>, waiting: seq<nat>, k: nat)
    requires k < |promises|
    ensures Dismiss(promises, waiting)[k] == if k in waiting then Done else promises[k]
    decreases |waiting|
  {
    if waiting != [] {
      var next := if waiting[0] < |promises| then promises[waiting[0] := Done] else promises;
      DismissAt(next, waiting[1..], k);
      assert waiting == [waiting[0]] + waiting[1..];
    }
  }

  lemma Facts<V>(run: seq<Action<V>>, a: Action<V>)
    ensures Accepted(run + [a]) == Accepted(run) + (if a.Emit? then [a.value] else [])
    ensures Calls(run + [a]) == Calls(run) + (if a.Next? then 1 else 0)
    ensures Ended(run + [a]) <==> Ended(run) || a.Fail? || a.Close?
    ensures Failure(run + [a]) ==
            if a.Fail? && (a.reason.truthy || Calls(run) > |Accepted(run)|) then Some(a.reason) else Failure(run)
  {
    var all := run + [a];
    assert all[..|all| - 1] == run && all[|run|] == a;
    EndedStep(run, a);
  }

  lemma EndedStep<V>(run: seq<Action<V>>, a: Action<V>)
    ensures Ended(run + [a]) <==> Ended(run) || a.Fail? || a.Close?
  {
    var all := run + [a];
    if Ended(run) {
      var i :| 0 <= i < |run| && (run[i].Fail? || run[i].Close?);
      assert all[i] == run[i];
    }
    if a.Fail? || a.Close? {
      assert all[|run|] == a;
    }
  }

  lemma EmitKept<V>(m: Marks, run: seq<Action<V>>, s: State<V>, v: V)
    requires Kept(run, s) && Enabled(s, Emit(v))
    ensures Kept(run + [Emit(v)], OnEvent(m, s, v))
  {
    hide Accepted, Calls, Ended, Failure;
    var a, c := |Accepted(run)|, Calls(run);
    Facts(run, Emit(v));
    var run', s' := run + [Emit(v)], OnEvent(m, s, v);
    if c <= a {
      assert (Accepted(run) + [v])[c..] == Accepted(run)[c..] + [v];
    } else {
      assert s.waiting[0] == a;
      assert s'.waiting == Range(a + 1, c);
    }
  }

  lemma {:induction false} NextKept<V>(m: Marks, run: seq<Action<V>>, s: State<V>)
    requires Kept(run, s)
    ensures Kept(run + [Next], OnNext(m, s))
  {
    hide Accepted, Calls, Ended, Failure, Dismiss;
    var a, c := |Accepted(run)|, Calls(run);
    Facts(run, Next);
    assert Accepted(run) + [] == Accepted(run);
    var run', s' := run + [Next], OnNext(m, s);
    NobodyDismissed(s.promises);
    assert forall k: nat :: Answer(run', k) == Answer(run, k);
    if c < a {
      assert s.queue[0] == Accepted(run)[c] && s.queue[1..] == Accepted(run)[c + 1..];
    } else {
      assert s.queue == [] && Accepted(run)[Min(a, c + 1)..] == [];
      if !s.finished {
        assert s'.waiting == Range(a, c + 1);
      }
    }
  }

  lemma {:induction false} CloseKept<V>(run: seq<Action<V>>, s: State<V>)
    requires Kept(run, s)
    ensures Kept(run + [Close], OnClose(s))
  {
    hide Accepted, Calls, Ended, Failure;
    var a, c := |Accepted(run)|, Calls(run);
    Facts(run, Close);
    assert Accepted(run) + [] == Accepted(run);
    forall k | 0 <= k < c ensures OnClose(s).promises[k] == Answer(run + [Close], k) {
      DismissAt(s.promises, s.waiting, k);
      InRange(a, c, k);
    }
  }

  lemma FailKept<V>(run: seq<Action<V>>, s: State<V>, reason: Reason)
    requires Kept(run, s) && Enabled(s, Fail(reason))
    ensures Kept(run + [Fail(reason)], OnError(s, reason))
  {
    hide Accepted, Calls, Ended, Failure, Dismiss;
    var a, c := |Accepted(run)|, Calls(run);
    Facts(run, Fail(reason));
    assert Accepted(run) + [] == Accepted(run);
    var s' := OnError(s, reason);
    if c > a {
      assert s.waiting[0] == a;
      var s1 := Settle(s, Rejected(reason));
      assert s1.waiting == Range(a + 1, c);
      forall k | 0 <= k < c ensures s'.promises[k] == Answer(run + [Fail(reason)], k) {
        DismissAt(s1.promises, s1.waiting, k);
        InRange(a + 1, c, k);
      }
    } else {
      assert Dismiss(s.promises, []) == s.promises by { NobodyDismissed(s.promises); }
    }
  }

  lemma NobodyDismissed<V>(promises: seq<Promise<V>>)
    ensures Dismiss(promises, []) == promises
  {
  }

  /**
   * In every run call `k` of `next` gets the event number `k` if there is one,
   * the first call beyond the events the error, and the others the end; what a
   * call gets does not depend on whether it came before or after.
   */
  lemma {:induction false} RunKept<V>(m: Marks, run: seq<Action<V>>)
    requires Legal(m, run)
    ensures Kept(run, After(m, run))
    decreases |run|
  {
    hide Kept, OnEvent, OnNext, OnClose, OnError;
    if run == [] {
      FreshKept(run);
    } else {
      var before, last := run[..|run| - 1], run[|run| - 1];
      assert run == before + [last];
      RunKept(m, before);
      match last
      case Emit(v) => EmitKept(m, before, After(m, before), v);
      case Next => NextKept(m, before, After(m, before));
      case Fail(reason) => FailKept(before, After(m, before), reason);
      case Close => CloseKept(before, After(m, before));
    }
  }

  lemma FreshKept<V>(run: seq<Action<V>>)
    requires run == []
    ensures Kept(run, Fresh())
  {
  }

  lemma Answers<V>(m: Marks, run: seq<Action<V>>)
    requires Legal(m, run)
    ensures var s := After(m, run);
            && |s.promises| == Calls(run) && (forall k :: 0 <= k < Calls(run) ==> s.promises[k] == Answer(run, k))
            && (s.queue == [] || s.waiting == [])
  {
    hide After, Answer, Calls, Accepted;
    RunKept(m, run);
  }

  /** An error that is not truthy is lost on a call that comes after it; a truthy one is not. */
  lemma FalsyErrorLost<V>(m: Marks, reason: Reason)
    ensures var run: seq<Action<V>> := [Fail(reason), Next];
            Legal(m, run) && After(m, run).promises == [if reason.truthy then Rejected(reason) else Done]
  {
    var nothing: seq<Action<V>>, first: seq<Action<V>> := [], [Fail(reason)];
    Extended(m, nothing, Fail(reason));
    assert nothing + [Fail(reason)] == first;
    Extended(m, first, Next);
    assert first + [Next] == [Fail(reason), Next];
  }

  // ----------------------------------------------------------------- watermarks

  /** Running with no more than `high` in the queue, or pausing with no less than `low`. */
  predicate Level<V>(m: Marks, s: State<V>) {
    if s.paused then |s.queue| >= m.low else |s.queue| <= m.high
  }

  lemma StepLevel<V>(m: Marks, s: State<V>, a: Action<V>)
    requires m.low <= m.high + 1 && Enabled(s, a) && Level(m, s)
    ensures Level(m, Step(m, s, a))
  {
  }

  lemma {:induction false} RunLevel<V>(m: Marks, run: seq<Action<V>>)
    requires m.low <= m.high + 1 && Legal(m, run)
    ensures Level(m, After(m, run))
    decreases |run|
  {
    hide Level, Step, Enabled;
    if run == [] {
      FreshLevel<V>(m);
    } else {
      RunLevel(m, run[..|run| - 1]);
      StepLevel(m, After(m, run[..|run| - 1]), run[|run| - 1]);
    }
  }

  lemma FreshLevel<V>(m: Marks)
    ensures Level(m, Fresh<V>())
  {
  }

  function Emits<V>(v: V, n: nat): seq<Action<V>> {
    if n == 0 then [] else Emits(v, n - 1) + [Emit(v)]
  }

  lemma Extended<V>(m: Marks, run: seq<Action<V>>, a: Action<V>)
    requires Legal(m, run) && Enabled(After(m, run), a)
    ensures Legal(m, run + [a]) && After(m, run + [a]) == Step(m, After(m, run), a)
  {
    assert (run + [a])[..|run + [a]| - 1] == run;
  }

  /** Events that nobody asks for pile up, and pause the emitter when they are more than `high`. */
  lemma {:induction false} PileUp<V>(m: Marks, v: V, n: nat)
    requires n <= m.high + 1
    ensures Legal(m, Emits(v, n))
    ensures var s := After(m, Emits(v, n)); |s.queue| == n && s.paused == (n > m.high) && s.waiting == [] && !s.finished
  {
    if n == 0 {
      assert Emits(v, n) == [];
    } else {
      hide Legal, After;
      PileUp(m, v, n - 1);
      Extended(m, Emits(v, n - 1), Emit(v));
    }
  }

  /** The watermarks do their work in all runs exactly when the low one is at most one above the high one. */
  lemma WatermarksHold<V(!new)>(m: Marks, v: V)
    ensures (forall run: seq<Action<V>> :: Legal(m, run) ==> Level(m, After(m, run))) <==> m.low <= m.high + 1
  {
    hide Legal, After;
    if m.low <= m.high + 1 {
      forall run: seq<Action<V>> | Legal(m, run) ensures Level(m, After(m, run)) {
        RunLevel(m, run);
      }
    } else {
      PileUp(m, v, m.high + 1);
    }
  }

  /** An event brings the queue above `high`. */
  ghost predicate Raised<V>(m: Marks, run: seq<Action<V>>, k: nat)
    requires Legal(m, run)
  {
    k < |run| && run[k].Emit? && Legal(m, run[..k + 1]) && |After(m, run[..k + 1]).queue| > m.high
  }

  /** A call takes an event out of the queue and brings it below `low`. */
  ghost predicate Lowered<V>(m: Marks, run: seq<Action<V>>, k: nat)
    requires Legal(m, run)
  {
    && k < |run| && run[k].Next? && Legal(m, run[..k]) && Legal(m, run[..k + 1])
    && After(m, run[..k]).queue != [] && |After(m, run[..k + 1]).queue| < m.low
  }

  lemma LastRaised<V>(m: Marks, run: seq<Action<V>>)
    requires Legal(m, run) && run != []
    ensures var k, before := |run| - 1, After(m, run[..|run| - 1]);
            After(m, run).paused == (Raised(m, run, k) || (before.paused && !Lowered(m, run, k)))
  {
    hide Step;
    var k := |run| - 1;
    assert run[..k + 1] == run;
    Answers(m, run[..k]);
    StepPaused(m, After(m, run[..k]), run[k]);
  }

  lemma StepPaused<V>(m: Marks, s: State<V>, a: Action<V>)
    requires Enabled(s, a) && (s.queue == [] || s.waiting == [])
    ensures var s' := Step(m, s, a);
            s'.paused == ((a.Emit? && |s'.queue| > m.high)
                          || (s.paused && !(a.Next? && s.queue != [] && |s'.queue| < m.low)))
  {
    hide Dismiss;
  }

  lemma {:induction false} Earlier<V>(m: Marks, run: seq<Action<V>>, k: nat)
    requires Legal(m, run) && k <= |run|
    ensures Legal(m, run[..k])
    decreases |run|
  {
    if k < |run| {
      Earlier(m, run[..|run| - 1], k);
      assert run[..|run| - 1][..k] == run[..k];
    } else {
      assert run[..k] == run;
    }
  }

  lemma SameMarks<V>(m: Marks, run: seq<Action<V>>, k: nat)
    requires Legal(m, run) && k < |run| - 1
    ensures Legal(m, run[..|run| - 1])
    ensures Raised(m, run, k) <==> Raised(m, run[..|run| - 1], k)
    ensures Lowered(m, run, k) <==> Lowered(m, run[..|run| - 1], k)
  {
    var before := run[..|run| - 1];
    assert before[..k] == run[..k] && before[..k + 1] == run[..k + 1];
  }

  /**
   * The emitter pauses at the event that brings the queue above the high mark
   * and resumes at the call that brings it below the low one: it is paused
   * exactly when there was such an event and no such call since.
   */
  lemma {:induction false} PausedExactly<V>(m: Marks, run: seq<Action<V>>)
    requires Legal(m, run)
    ensures After(m, run).paused <==>
            exists k :: 0 <= k < |run| && Raised(m, run, k) && forall j :: k < j < |run| ==> !Lowered(m, run, j)
    decreases |run|
  {
    hide Legal, After, Raised, Lowered;
    if run == [] {
      NotPaused<V>(m);
    } else {
      var before, last := run[..|run| - 1], |run| - 1;
      Earlier(m, run, last);
      PausedExactly(m, before);
      LastRaised(m, run);
      forall k | 0 <= k < last
        ensures Raised(m, run, k) == Raised(m, before, k) && Lowered(m, run, k) == Lowered(m, before, k)
      {
        SameMarks(m, run, k);
      }
      NotBoth(m, run, last);
    }
  }

  lemma NotBoth<V>(m: Marks, run: seq<Action<V>>, k: nat)
    requires Legal(m, run)
    ensures !(Raised(m, run, k) && Lowered(m, run, k))
  {
  }

  lemma NotPaused<V>(m: Marks)
    ensures var nothing: seq<Action<V>> := []; Legal(m, nothing) && !After(m, nothing).paused
  {
  }
}
