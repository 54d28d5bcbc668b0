/** Responses that are not sent in chunks, and when the header goes: every byte of a message is its header or its data. */
module HttpPlain {
  import opened CodeUnits
  import opened Results
  import opened HttpChunked
  import opened HttpMessage
  import opened HttpFraming
  import opened HttpPipeline
  import opened HttpReading

  /** The data that is sent once a header is stored. */
  function Body(s: State, data: Bytes): Bytes {
    if s.framing.hasBody then data else []
  }

  /**
   * Nothing without a header; with one that announces no chunks, all of it or
   * nothing yet, with the data given since behind it.
   */
  ghost predicate PlainSoFar(s: State, out: Bytes, data: Bytes) {
    && (s.headerSent ==> s.header.Some?)
    && (s.header.None? ==> out == [] && data == [] && s.buffer == [])
    && (s.header.Some? && !InChunks(s) ==>
          && s.buffer == []
          && (if s.headerSent then out == s.header.value + Body(s, data) else out == [] && Body(s, data) == []))
  }

  lemma PlainSend(s: State, out: Bytes, data: Bytes, more: Bytes)
    requires PlainSoFar(s, out, data) && s.header.Some? && !InChunks(s) && (more == [] || s.framing.hasBody)
    ensures var (s', out') := Send(s, more);
            PlainSoFar(s', out + out', data + more) && s'.headerSent && s'.header == s.header && s'.framing == s.framing
  {
    if s.headerSent {
      assert s.header.value + data + more == s.header.value + (data + more);
      assert data + [] == data;
      assert out + [] == out;
    } else {
      assert [] + (s.header.value + more) == s.header.value + more;
      assert data + [] == data && [] + more == more;
      assert s.framing.hasBody ==> data == [];
      assert s.header.value + [] == s.header.value;
    }
  }

  lemma PlainStart(s: State, h: Head, out: Bytes, data: Bytes)
    requires PlainSoFar(s, out, data)
    ensures var (s', out') := StartHead(s, h); PlainSoFar(s', out + out', data) && s'.finished == s.finished
  {
    hide ChooseFraming;
    assert out + [] == out && data + [] == data;
    if s.header.None? {
      var s1 := StoreHeader(s, h);
      if s1.header.Some? && !InChunks(s1) {
        PlainSend(s1, out, data, []);
      }
    }
  }

  lemma PlainWrite(s: State, d: Data, out: Bytes, data: Bytes)
    requires PlainSoFar(s, out, data) && s.header.Some?
    ensures var (s', out') := WriteBody(s, d);
            PlainSoFar(s', out + out', data + d.bytes) && (s.framing.hasBody && !InChunks(s) ==> s'.headerSent)
  {
    hide Sized, PlainSoFar;
    assert out + [] == out;
    if InChunks(s) {
      WriteKeepsHeader(s, d);
      ChunksPlain(s, WriteBody(s, d).0, out + WriteBody(s, d).1, data + d.bytes);
    } else if s.framing.hasBody {
      PlainSend(s, out, data, d.bytes);
    } else {
      NoBody(s, out, data, data + d.bytes);
    }
  }

  lemma ChunksPlain(s: State, s': State, out: Bytes, data: Bytes)
    requires InChunks(s) && s'.header == s.header && s'.framing == s.framing
    ensures PlainSoFar(s', out, data)
  {
  }

  lemma NoBody(s: State, out: Bytes, data: Bytes, data': Bytes)
    requires PlainSoFar(s, out, data) && s.header.Some? && !s.framing.hasBody
    ensures PlainSoFar(s, out, data')
  {
  }

  lemma PlainUncork(s: State, out: Bytes, data: Bytes)
    requires PlainSoFar(s, out, data)
    ensures var (s', out') := Uncorked(s); PlainSoFar(s', out + out', data)
    ensures s.header.Some? && !InChunks(s) ==> Uncorked(s) == (s.(corked := s.corked - 1), [])
  {
    hide Sized, Total, Sizes;
    assert out + [] == out;
  }

  /** Every call but `end`. */
  lemma {:induction false} PlainStep(s: State, op: Op, out: Bytes, data: Bytes)
    requires PlainSoFar(s, out, data) && !op.End? && !s.finished
    ensures var (s', out') := Step(s, op);
            PlainSoFar(s', out + out', if s'.header.Some? then data + DataGiven(op) else data)
  {
    hide PlainSoFar, StartHead, WriteBody, Uncorked, Send;
    Neutral(out);
    Neutral(data);
    match op
    case WriteHead(h) => PlainStart(s, h, out, data);
    case FlushHeaders(h) =>
      PlainStart(s, h, out, data);
      var (s1, out1) := StartHead(s, h);
      if s1.header.Some? {
        PlainFlush(s1, out + out1, data);
        assert out + (out1 + Send(s1, []).1) == out + out1 + Send(s1, []).1;
      }
    case Write(d, h) =>
      PlainStart(s, h, out, data);
      var (s1, out1) := StartHead(s, h);
      if s1.header.Some? {
        PlainWrite(s1, d, out + out1, data);
        WriteKeepsHeader(s1, d);
        assert out + (out1 + WriteBody(s1, d).1) == out + out1 + WriteBody(s1, d).1;
      }
    case Uncork => PlainUncork(s, out, data);
    case _ => PlainOther(s, op, out, data);
  }

  lemma PlainFlush(s: State, out: Bytes, data: Bytes)
    requires PlainSoFar(s, out, data) && s.header.Some?
    ensures PlainSoFar(Send(s, []).0, out + Send(s, []).1, data)
  {
    hide PlainSoFar;
    Neutral(data);
    if InChunks(s) {
      BodyKeepsHeader(s, Data([], 0, 0));
      ChunksPlain(s, Send(s, []).0, out + Send(s, []).1, data);
    } else {
      PlainSend(s, out, data, []);
    }
  }

  lemma PlainOther(s: State, op: Op, out: Bytes, data: Bytes)
    requires PlainSoFar(s, out, data) && (op.RemoveHeader? || op.AddTrailers? || op.Cork?)
    ensures PlainSoFar(Step(s, op).0, out, data) && Step(s, op).1 == [] && Step(s, op).0.header == s.header
  {
  }

  lemma {:induction false} PlainRun(s: State, ops: seq<Op>)
    requires IsFresh(s) && forall i :: 0 <= i < |ops| ==> !ops[i].End?
    ensures var (s', out) := Run(s, ops); PlainSoFar(s', out, DataOf(ops[StoredAt(s, ops)..])) && !s'.finished
    decreases |ops|
  {
    hide Step, Run, PlainSoFar, DataOf;
    if ops == [] {
      NothingPlain(s);
      NoData();
      assert ops[StoredAt(s, ops)..] == [];
    } else {
      var before, op := ops[..|ops| - 1], ops[|ops| - 1];
      PlainRun(s, before);
      var (s1, out1) := Run(s, before);
      var data := DataOf(before[StoredAt(s, before)..]);
      PlainStep(s1, op, out1, data);
      RunBoth(s, ops);
      StepUnfinished(s1, op);
      RunStores(s, before);
      RunStores(s, ops);
      StepStores(s1, op);
      var k := StoredAt(s, ops);
      if k < |ops| {
        DataMore(ops, k);
      } else {
        assert before[|before|..] == [] && ops[k..] == [];
      }
    }
  }

  lemma RunBoth(s: State, ops: seq<Op>)
    requires ops != []
    ensures Run(s, ops) == Then(Run(s, ops[..|ops| - 1]), Step(Run(s, ops[..|ops| - 1]).0, ops[|ops| - 1]))
  {
    hide Step;
  }

  lemma NothingPlain(s: State)
    requires IsFresh(s)
    ensures Run(s, []) == (s, []) && PlainSoFar(s, [], [])
  {
    NoData();
  }

  /** What `end` adds: its own data, and the header if it had not gone. */
  lemma PlainFinish(s: State, out: Bytes, data: Bytes)
    requires PlainSoFar(s, out, data) && s.header.Some? && !InChunks(s)
    ensures out + Finish(s).1 == s.header.value + Body(s, data)
  {
    hide PlainSoFar;
    var (s1, out1) := Send(s, []);
    Neutral(data);
    PlainSend(s, out, data, []);
    SentPlain(s1, out + out1, data);
    UncorkNothing(s1.(corked := 1));
    Neutral(out1);
  }

  lemma UncorkNothing(s: State)
    requires s.buffer == []
    ensures Uncorked(s) == (s.(corked := s.corked - 1), [])
  {
    hide Sized;
  }

  lemma SentPlain(s: State, out: Bytes, data: Bytes)
    requires PlainSoFar(s, out, data) && s.header.Some? && s.headerSent && !InChunks(s)
    ensures s.buffer == [] && out == s.header.value + Body(s, data)
  {
  }

  lemma LengthPlain(s: State, last: Option<Data>, out: Bytes, data: Bytes)
    requires PlainSoFar(s, out, data)
    ensures PlainSoFar(WithLength(s, last), out, data) && WithLength(s, last).header == s.header
  {
  }

  /** The call that ends the message. */
  lemma {:induction false} PlainEnds(s: State, last: Option<Data>, h: Head, out: Bytes, data: Bytes)
    requires PlainSoFar(s, out, data) && !s.finished
    requires Step(s, End(last, h)).0.header.Some? && !InChunks(Step(s, End(last, h)).0)
    ensures var (s', out') := Step(s, End(last, h));
            && Done(s') && out + out' == s'.header.value + Body(s', data + DataGiven(End(last, h)))
  {
    hide StartHead, WriteBody, Finish, PlainSoFar, Step;
    var s0 := WithLength(s, last);
    LengthPlain(s, last, out, data);
    PlainStart(s0, h, out, data);
    var (s1, out1) := StartHead(s0, h);
    EndUnfolds(s, last, h);
    var (s2, out2) := AtLast(s, last, h);
    Neutral(data);
    if last.Some? && s1.header.Some? {
      PlainWrite(s1, last.value, out + out1, data);
      assert out + (out1 + WriteBody(s1, last.value).1) == out + out1 + WriteBody(s1, last.value).1;
    }
    FinishDone(s2);
    PlainFinish(s2, out + out2, data + DataGiven(End(last, h)));
    assert out + (out2 + Finish(s2).1) == out + out2 + Finish(s2).1;
  }

  /**
   * A response that ends without having been sent in chunks, whatever calls made
   * it: its bytes are the header, which begins with the text of the head that its
   * handler gave, then the data given from there on, or none where the request or
   * the status allows no body.
   */
  lemma {:induction false} PlainMessage(s: State, p: Plan)
    requires IsFresh(s) && forall i :: 0 <= i < |p.ops| ==> !p.ops[i].End? && HeadsText(p.ops[i])
    requires HeadsText(p.Ending())
    requires var s' := Step(Run(s, p.ops).0, p.Ending()).0; s'.header.Some? && !InChunks(s')
    ensures var s' := Step(Run(s, p.ops).0, p.Ending()).0;
            && Run(s, p.Calls()).1 == p.Header(s) + Body(s', DataOf(p.Upto()[p.Storing(s)..]))
            && p.Giving(s).text <= p.Header(s) && LinesOf(p.Header(s)) == HeadLines(p.Before(s), p.Giving(s))
  {
    hide Step, Run, Done, StoredAt, DataOf, HeadText, HeadLines, LinesOf, ChooseFraming, FramingFor, Body;
    var all, s1 := p.Upto(), Run(s, p.ops).0;
    PlainRun(s, p.ops);
    PlainEnds(s1, p.last, p.head, Run(s, p.ops).1, DataOf(p.ops[StoredAt(s, p.ops)..]));
    MessageBytes(s, p.ops, p.last, p.head, p.after);
    UptoRun(s, p);
    RunStores(s, p.ops);
    RunStores(s, all);
    StoredBefore(s, p);
    var k := p.Storing(s);
    DataMore(all, k);
    assert all[..|all| - 1] == p.ops;
    assert HeadsText(all[k]);
    StoredLines(p.Before(s), p.Giving(s));
  }

  /** The call that stores the header is among the first ones, or it is `end`. */
  lemma StoredBefore(s: State, p: Plan)
    ensures StoredAt(s, p.Upto()) < |p.Upto()| ==> StoredAt(s, p.ops) == StoredAt(s, p.Upto())
  {
    hide Run;
    assert p.Upto()[..|p.Upto()| - 1] == p.ops;
  }
}
