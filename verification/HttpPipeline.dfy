/**
 * One server connection as a state machine: requests arrive, handlers call
 * their responses in any order, responses finish. The wire carries the
 * responses one after the other in request order, each exactly as if its
 * handler had had the connection to itself.
 */
module HttpPipeline {
  import opened CodeUnits
  import opened Results
  import opened HttpChunked
  import opened HttpMessage
  import opened HttpFraming

  /** A response with the bytes it has had to queue. */
  datatype Slot = Slot(state: State, queued: Bytes)

  /**
   * `slots` are the responses in request order; the first `done` have finished
   * and the next one owns the socket, until a response marked last has finished.
   */
  datatype Conn = Conn(wire: Bytes, slots: seq<Slot>, done: nat, closing: bool)

  datatype Event = Request(response: State) | Call(i: nat, op: Op) | Finished

  predicate IsFresh(s: State) {
    s.header.None? && !s.headerSent && !s.finished && s.buffer == [] && s.corked == 0 && s.trailers == []
  }

  predicate Owns(c: Conn, i: nat) { !c.closing && i == c.done && i < |c.slots| }

  /** Requests and calls may come at any time; the owner's finish callback once it has ended. */
  predicate Enabled(c: Conn, e: Event) {
    match e
    case Request(response) => !c.closing && IsFresh(response)
    case Call(i, _) => i < |c.slots|
    case Finished => Owns(c, c.done) && c.slots[c.done].state.finished
  }

  function StepConn(c: Conn, e: Event): Conn
    requires Enabled(c, e)
  {
    match e
    case Request(response) => c.(slots := c.slots + [Slot(response, [])])
    case Call(i, op) => Deliver(c, i, Step(c.slots[i].state, op))
    case Finished =>
      var closing := c.slots[c.done].state.framing.last;
      var done := c.done + 1;
      if closing || done == |c.slots| then c.(done := done, closing := closing)
      else
        var next := c.slots[done];
        c.(done := done, wire := c.wire + next.queued, slots := c.slots[done := next.(queued := [])])
  }

  /** The bytes of a call go to the wire for the owner and to the response's queue for any other. */
  function Deliver(c: Conn, i: nat, r: (State, Bytes)): Conn
    requires i < |c.slots|
  {
    if Owns(c, i) then c.(wire := c.wire + r.1, slots := c.slots[i := Slot(r.0, c.slots[i].queued)])
    else c.(slots := c.slots[i := Slot(r.0, c.slots[i].queued + r.1)])
  }

  const START: Conn := Conn([], [], 0, false)

  ghost predicate Legal(es: seq<Event>)
    decreases |es|, 0
  {
    es == [] || (Legal(es[..|es| - 1]) && Enabled(After(es[..|es| - 1]), es[|es| - 1]))
  }

  ghost function After(es: seq<Event>): Conn
    requires Legal(es)
    decreases |es|, 1
  {
    if es == [] then START else StepConn(After(es[..|es| - 1]), es[|es| - 1])
  }

  // ------------------------------------------------ each response on its own

  /** The new responses, in the order their requests arrived. */
  function Requests(es: seq<Event>): seq<State> {
    if es == [] then []
    else
      var last := es[|es| - 1];
      Requests(es[..|es| - 1]) + (if last.Request? then [last.response] else [])
  }

  /** The calls made on response `i`. */
  function CallsOf(es: seq<Event>, i: nat): seq<Op> {
    if es == [] then []
    else
      var last := es[|es| - 1];
      CallsOf(es[..|es| - 1], i) + (if last.Call? && last.i == i then [last.op] else [])
  }

  /** What response `i` has come to and the bytes it has made, seen without the others. */
  function Alone(es: seq<Event>, i: nat): (State, Bytes)
    requires i < |Requests(es)|
  {
    Run(Requests(es)[i], CallsOf(es, i))
  }

  /** The bytes of the first `n` responses, one after the other. */
  function Streams(es: seq<Event>, n: nat): Bytes
    requires n <= |Requests(es)|
  {
    if n == 0 then [] else Streams(es, n - 1) + Alone(es, n - 1).1
  }

  // ------------------------------------------------------------------ invariant

  /** Every response is where it would be alone; what the wire does not have of it is in its queue. */
  ghost predicate Ordered(es: seq<Event>, c: Conn) {
    && |c.slots| == |Requests(es)| && c.done <= |c.slots| && NoCallsYet(es)
    && (forall i :: 0 <= i < |c.slots| ==> InPlace(es, c, i))
    && c.wire == Streams(es, c.done) + (if Owns(c, c.done) then Alone(es, c.done).1 else [])
  }

  ghost predicate InPlace(es: seq<Event>, c: Conn, i: nat)
    requires i < |c.slots| == |Requests(es)|
  {
    && c.slots[i].state == Alone(es, i).0 && Settled(c.slots[i].state)
    && (i < c.done ==> c.slots[i].state.finished)
    && (i >= c.done ==> c.slots[i].queued == if Owns(c, i) then [] else Alone(es, i).1)
  }

  /** Nobody can have called a response before it was there. */
  ghost predicate NoCallsYet(es: seq<Event>) {
    forall i: nat :: i >= |Requests(es)| ==> CallsOf(es, i) == []
  }

  /** A finished response has sent everything it will ever send. */
  ghost predicate Settled(s: State) {
    s.finished ==> Done(s)
  }

  lemma {:induction false} StepSettled(s: State, op: Op)
    requires Settled(s)
    ensures Settled(Step(s, op).0)
    ensures s.finished ==> Step(s, op).1 == [] && Step(s, op).0.finished
  {
    hide Done, Finish, AtLast, StartHead, WriteBody, Uncorked, Step;
    if s.finished {
      StepDone(s, op);
      DoneFinished(Step(s, op).0);
    } else if op.End? {
      EndUnfolds(s, op.last, op.head);
      var (s2, out2) := AtLast(s, op.last, op.head);
      AtLastUnfinished(s, op.last, op.head);
      if s2.header.Some? {
        FinishDone(s2);
      }
    } else {
      StepUnfinished(s, op);
    }
  }

  lemma DoneFinished(s: State)
    requires Done(s)
    ensures s.finished
  {
  }

  lemma StepUnfinished(s: State, op: Op)
    requires !s.finished && !op.End?
    ensures !Step(s, op).0.finished
  {
    hide ChooseFraming, Frame, Total;
  }

  lemma AtLastUnfinished(s: State, last: Option<Data>, h: Head)
    requires !s.finished
    ensures !AtLast(s, last, h).0.finished
  {
    hide ChooseFraming, Frame, Total;
  }

  lemma RequestsStep(es: seq<Event>, e: Event)
    ensures Requests(es + [e]) == Requests(es) + (if e.Request? then [e.response] else [])
    ensures forall i: nat :: CallsOf(es + [e], i) == CallsOf(es, i) + (if e.Call? && e.i == i then [e.op] else [])
  {
    var all := es + [e];
    assert all[..|all| - 1] == es && all[|all| - 1] == e;
  }

  /** An event leaves the other responses' calls alone. */
  lemma AloneStep(es: seq<Event>, e: Event, i: nat)
    requires i < |Requests(es)|
    ensures i < |Requests(es + [e])|
    ensures Alone(es + [e], i) ==
            if e.Call? && e.i == i then Then(Alone(es, i), Step(Alone(es, i).0, e.op)) else Alone(es, i)
  {
    hide Step, Run, CallsOf, Requests;
    RequestsStep(es, e);
    if e.Call? && e.i == i {
      RunLast(Requests(es)[i], CallsOf(es, i), e.op);
    } else {
      assert CallsOf(es, i) + [] == CallsOf(es, i);
    }
  }

  lemma {:induction false} StreamsSame(es: seq<Event>, e: Event, n: nat)
    requires n <= |Requests(es)| && (e.Call? ==> n <= e.i)
    ensures n <= |Requests(es + [e])| && Streams(es + [e], n) == Streams(es, n)
  {
    hide Alone;
    RequestsStep(es, e);
    if n > 0 {
      StreamsSame(es, e, n - 1);
      AloneStep(es, e, n - 1);
    }
  }

  /** A call on a finished response adds nothing to its stream. */
  lemma {:induction false} StreamsFinished(es: seq<Event>, e: Event, n: nat)
    requires n <= |Requests(es)| && e.Call?
    requires forall i :: 0 <= i < n ==> Settled(Alone(es, i).0) && Alone(es, i).0.finished
    ensures n <= |Requests(es + [e])| && Streams(es + [e], n) == Streams(es, n)
  {
    hide Alone, Settled, Step;
    RequestsStep(es, e);
    if n > 0 {
      StreamsFinished(es, e, n - 1);
      AloneStep(es, e, n - 1);
      if e.i == n - 1 {
        StepSettled(Alone(es, n - 1).0, e.op);
        Neutral(Alone(es, n - 1).1);
      }
    }
  }

  lemma NoCallsStep(es: seq<Event>, e: Event)
    requires NoCallsYet(es) && (e.Call? ==> e.i < |Requests(es)|)
    ensures NoCallsYet(es + [e])
  {
    RequestsStep(es, e);
  }

  lemma NewResponse(es: seq<Event>, e: Event, n: nat)
    requires e.Request? && n == |Requests(es)| && NoCallsYet(es) && IsFresh(e.response)
    ensures n < |Requests(es + [e])| && Alone(es + [e], n) == (e.response, []) && Settled(e.response)
  {
    RequestsStep(es, e);
    assert CallsOf(es + [e], n) == [];
  }

  lemma {:induction false} RequestOrdered(es: seq<Event>, c: Conn, e: Event)
    requires Ordered(es, c) && Enabled(c, e) && e.Request?
    ensures Ordered(es + [e], StepConn(c, e))
  {
    hide Alone, Settled, Done, Requests, NoCallsYet, Streams;
    var c' := StepConn(c, e);
    var n := |c.slots|;
    RequestsStep(es, e);
    NoCallsStep(es, e);
    StreamsSame(es, e, c.done);
    NewResponse(es, e, n);
    forall i | 0 <= i <= n ensures InPlace(es + [e], c', i) {
      if i < n {
        assert InPlace(es, c, i);
        AloneStep(es, e, i);
      }
    }
    if Owns(c', c'.done) && c.done < n {
      AloneStep(es, e, c.done);
    }
  }

  lemma {:induction false} FinishedOrdered(es: seq<Event>, c: Conn)
    requires Ordered(es, c) && Enabled(c, Finished)
    ensures Ordered(es + [Finished], StepConn(c, Finished))
  {
    hide Alone, Settled, Done, Requests, NoCallsYet;
    var c', es' := StepConn(c, Finished), es + [Finished];
    RequestsStep(es, Finished);
    NoCallsStep(es, Finished);
    forall i | 0 <= i < |c.slots| ensures Alone(es', i) == Alone(es, i) && InPlace(es', c', i) {
      assert InPlace(es, c, i);
      AloneStep(es, Finished, i);
    }
    StreamsSame(es, Finished, c.done);
    assert Streams(es', c'.done) == Streams(es', c.done) + Alone(es', c.done).1;
    assert Streams(es', c'.done) + [] == Streams(es', c'.done);
    if Owns(c', c'.done) {
      assert InPlace(es, c, c'.done);
    }
  }

  lemma {:induction false} CallOrdered(es: seq<Event>, c: Conn, e: Event)
    requires Ordered(es, c) && Enabled(c, e) && e.Call?
    ensures Ordered(es + [e], StepConn(c, e))
  {
    hide Alone, Settled, Done, Requests, NoCallsYet, Step, Streams;
    var c', es' := StepConn(c, e), es + [e];
    RequestsStep(es, e);
    NoCallsStep(es, e);
    assert InPlace(es, c, e.i);
    StepSettled(c.slots[e.i].state, e.op);
    forall i | 0 <= i < |c.slots| ensures InPlace(es', c', i) {
      assert InPlace(es, c, i);
      AloneStep(es, e, i);
    }
    forall i | 0 <= i < c.done ensures Settled(Alone(es, i).0) && Alone(es, i).0.finished {
      assert InPlace(es, c, i);
    }
    StreamsFinished(es, e, c.done);
    if Owns(c, c.done) {
      AloneStep(es, e, c.done);
      var out := Step(c.slots[e.i].state, e.op).1;
      assert Streams(es, c.done) + Alone(es, c.done).1 + out == Streams(es, c.done) + (Alone(es, c.done).1 + out);
    }
  }

  lemma {:induction false} RunOrdered(es: seq<Event>)
    requires Legal(es)
    ensures Ordered(es, After(es))
    decreases |es|
  {
    hide Ordered, StepConn, Enabled;
    if es == [] {
      NothingOrdered();
    } else {
      var before, e := es[..|es| - 1], es[|es| - 1];
      assert es == before + [e];
      RunOrdered(before);
      match e
      case Request(_) => RequestOrdered(before, After(before), e);
      case Call(_, _) => CallOrdered(before, After(before), e);
      case Finished => FinishedOrdered(before, After(before));
    }
  }

  lemma NothingOrdered()
    ensures Ordered([], START)
  {
  }

  // ------------------------------------------------------------------------ laws

  /**
   * In every run the wire holds the whole streams of the finished responses in
   * request order, then all that the oldest unfinished one has made, and
   * nothing else; every later response has all it has made in its own queue.
   * A response's stream depends on its own calls only.
   */
  lemma {:induction false} InRequestOrder(es: seq<Event>)
    requires Legal(es)
    ensures var c := After(es);
            && c.done <= |Requests(es)| == |c.slots|
            && c.wire == Streams(es, c.done) + (if Owns(c, c.done) then Alone(es, c.done).1 else [])
            && (forall i :: 0 <= i < c.done ==> Alone(es, i).0.finished)
            && (forall i :: c.done <= i < |c.slots| && !Owns(c, i) ==> c.slots[i].queued == Alone(es, i).1)
  {
    hide Alone, After, Legal, Streams, Settled;
    RunOrdered(es);
    var c := After(es);
    forall i | 0 <= i < |c.slots|
      ensures i < c.done ==> Alone(es, i).0.finished
      ensures c.done <= i && !Owns(c, i) ==> c.slots[i].queued == Alone(es, i).1
    {
      assert InPlace(es, c, i);
    }
  }

  /** How the calls of different handlers interleave leaves no trace on the wire. */
  lemma InterleavingLeavesNoTrace(es: seq<Event>, es': seq<Event>)
    requires Legal(es) && Legal(es') && Requests(es) == Requests(es')
    requires forall i: nat :: CallsOf(es, i) == CallsOf(es', i)
    requires After(es).done == |After(es).slots| && After(es').done == |After(es').slots|
    ensures After(es).wire == After(es').wire
  {
    InRequestOrder(es);
    InRequestOrder(es');
    StreamsEqual(es, es', |Requests(es)|);
    Neutral(Streams(es, |Requests(es)|));
  }

  lemma {:induction false} StreamsEqual(es: seq<Event>, es': seq<Event>, n: nat)
    requires Requests(es) == Requests(es') && n <= |Requests(es)|
    requires forall i: nat :: CallsOf(es, i) == CallsOf(es', i)
    ensures Streams(es, n) == Streams(es', n)
  {
    hide Run, Requests, CallsOf;
    if n > 0 {
      StreamsEqual(es, es', n - 1);
      assert CallsOf(es, n - 1) == CallsOf(es', n - 1);
    }
  }
}
