/** When a chunked response, whatever calls made it, reads back as the data written, and when not. */
module HttpFraming {
  import opened CodeUnits
  import opened Results
  import opened HttpChunked
  import opened HttpMessage
  import opened HttpSized

  /** The body is sent in chunks; once a header is stored this does not change. */
  predicate InChunks(s: State) {
    s.header.Some? && s.framing.chunked && s.framing.hasBody
  }

  /** No bytes come from nothing. */
  predicate Encoded(d: Data) {
    d.length == 0 ==> d.bytes == []
  }

  predicate WellMade(op: Op) {
    match op
    case AddTrailers(lines) => forall i :: 0 <= i < |lines| ==> IsLine(lines[i])
    case Write(data, _) => Encoded(data)
    case End(last, _) => last.Some? ==> Encoded(last.value)
    case _ => true
  }

  /** Every uncork follows a cork of its own. */
  ghost predicate Matched(s: State, ops: seq<Op>) {
    forall i :: 0 <= i < |ops| && ops[i] == Uncork ==> Run(s, ops[..i]).0.corked > 0
  }

  /** The data that a call is given to write, when the message still takes it. */
  function Given(s: State, op: Op): Bytes {
    match op
    case Write(data, h) => if !s.finished && InChunks(StartHead(s, h).0) then data.bytes else []
    case _ => []
  }

  function Written(s: State, ops: seq<Op>): Bytes {
    if ops == [] then []
    else
      var before := ops[..|ops| - 1];
      Written(s, before) + Given(Run(s, before).0, ops[|ops| - 1])
  }

  /** The chunk that one call sends: what it writes itself, or all that was written since the cork it takes back. */
  function ChunkOf(s: State, op: Op): seq<Part> {
    match op
    case Write(data, h) => if s.finished then [] else WriteChunk(StartHead(s, h).0, data)
    case Uncork => if InChunks(s) && s.corked == 1 && s.buffer != [] then [Part(Sizes(s.buffer), Total(s.buffer))] else []
    case End(last, h) =>
      if s.finished || last.None? then [] else WriteChunk(StartHead(WithLength(s, last), h).0, last.value)
    case _ => []
  }

  function WriteChunk(s: State, data: Data): seq<Part> {
    if InChunks(s) && data.length != 0 && (s.corked == 0 || !s.headerSent) then [Part(data.size, data.bytes)] else []
  }

  /** The chunks that calls send, one after the other. */
  function Chunks(s: State, ops: seq<Op>): seq<Part> {
    if ops == [] then []
    else
      var before := ops[..|ops| - 1];
      Chunks(s, before) + ChunkOf(Run(s, before).0, ops[|ops| - 1])
  }

  // ------------------------------------------------------------------ invariant

  /** A message on its way: corks counted, a buffer only while corked, nothing sent before the header is stored. */
  ghost predicate Open(s: State) {
    && !s.finished && s.corked >= 0
    && (s.corked == 0 ==> s.buffer == [])
    && (s.buffer != [] ==> s.headerSent && s.framing.chunked)
    && (s.headerSent ==> s.header.Some?)
    && (forall i :: 0 <= i < |s.buffer| ==> Encoded(s.buffer[i]))
    && (forall i :: 0 <= i < |s.trailers| ==> IsLine(s.trailers[i]))
  }

  function Lead(s: State): Bytes {
    if s.headerSent && s.header.Some? then s.header.value else []
  }

  /** The bytes so far are the header and whole chunks, which with the buffer make up what was written. */
  ghost predicate Framed(s: State, out: Bytes, parts: seq<Part>, written: Bytes) {
    && (s.header.None? ==> out == [] && parts == [] && written == [])
    && (InChunks(s) ==> out == Lead(s) + Sent(parts) && BytesOf(parts) + Total(s.buffer) == written)
    && (InChunks(s) && !s.headerSent ==> parts == [])
  }

  lemma {:induction false} SentAppend(parts: seq<Part>, p: Part)
    ensures Sent(parts + [p]) == Sent(parts) + Sized(p.size, p.bytes)
    ensures BytesOf(parts + [p]) == BytesOf(parts) + p.bytes
  {
    hide Sized;
    if parts == [] {
      assert parts + [p] == [p];
      SentOne(p);
    } else {
      assert (parts + [p])[1..] == parts[1..] + [p];
      SentAppend(parts[1..], p);
    }
  }

  lemma SentOne(p: Part)
    ensures Sent([p]) == Sized(p.size, p.bytes) && BytesOf([p]) == p.bytes
  {
    hide Sized;
    assert [p][1..] == [];
    assert Sized(p.size, p.bytes) + [] == Sized(p.size, p.bytes) && p.bytes + [] == p.bytes;
  }

  lemma TotalAppend(buffer: seq<Data>, d: Data)
    ensures Total(buffer + [d]) == Total(buffer) + d.bytes
  {
    assert (buffer + [d])[..|buffer|] == buffer;
  }

  /** Storing the header sends at most the header. */
  lemma HeadFramed(s: State, h: Head, out: Bytes, written: Bytes)
    requires Open(s) && s.header.None? && Framed(s, out, [], written)
    ensures var (s1, out1) := StartHead(s, h);
            Open(s1) && Framed(s1, out + out1, [], written) && s1.corked == s.corked && s1.buffer == []
  {
    hide ChooseFraming;
    assert Sent([]) == [] && BytesOf([]) == [] && Total([]) == [];
  }

  /** Once the header is stored, writing adds a chunk to what was sent or to the buffer. */
  lemma {:induction false} WriteFramed(s: State, data: Data, out: Bytes, parts: seq<Part>, written: Bytes)
    requires Open(s) && s.header.Some? && Encoded(data) && Framed(s, out, parts, written)
    ensures var (s1, out1) := WriteBody(s, data);
            Open(s1) && Framed(s1, out + out1, parts + WriteChunk(s, data),
                               if InChunks(s) then written + data.bytes else written)
    ensures var (s1, _) := WriteBody(s, data); s1.corked == s.corked && (s1.buffer == s.buffer || s.corked > 0)
  {
    hide Sized, Sent, BytesOf, Total, Send, Framed, Open;
    SendOpen(s, data.bytes);
    SendOpen(s, Sized(data.size, data.bytes));
    assert parts + [] == parts;
    if InChunks(s) {
      if data.length == 0 {
        SendNothing(s, out, parts, written);
        Neutral(written);
      } else if s.corked != 0 && s.headerSent {
        BufferFramed(s, data, out, parts, written);
      } else {
        NotBuffered(s);
        SendChunk(s, Part(data.size, data.bytes), out, parts, written);
      }
    } else {
      OtherFramed(s, WriteBody(s, data).0, out, WriteBody(s, data).1, parts, written);
    }
  }

  lemma NotBuffered(s: State)
    requires Open(s) && (s.corked == 0 || !s.headerSent)
    ensures s.buffer == []
  {
  }

  lemma BufferFramed(s: State, data: Data, out: Bytes, parts: seq<Part>, written: Bytes)
    requires Open(s) && InChunks(s) && s.corked != 0 && s.headerSent && Encoded(data) && Framed(s, out, parts, written)
    ensures var s1 := s.(buffer := s.buffer + [data]);
            Open(s1) && Framed(s1, out + [], parts, written + data.bytes) && s.corked > 0
  {
    hide Sized, Sent, BytesOf, Total;
    TotalAppend(s.buffer, data);
    Neutral(out);
    assert BytesOf(parts) + (Total(s.buffer) + data.bytes) == BytesOf(parts) + Total(s.buffer) + data.bytes;
  }

  lemma OtherFramed(s: State, s1: State, out: Bytes, out1: Bytes, parts: seq<Part>, written: Bytes)
    requires s.header.Some? && !InChunks(s) && s1.header == s.header && s1.framing == s.framing
    requires Framed(s, out, parts, written)
    ensures Framed(s1, out + out1, parts, written)
  {
  }

  lemma SendNothing(s: State, out: Bytes, parts: seq<Part>, written: Bytes)
    requires Open(s) && InChunks(s) && Framed(s, out, parts, written)
    ensures var (s1, out1) := Send(s, []); Open(s1) && Framed(s1, out + out1, parts, written)
  {
    hide Sized, BytesOf;
    if s.headerSent {
      assert out + [] == out;
    } else {
      assert Sent(parts) == [] && out == [];
      assert [] + (s.header.value + []) == s.header.value + [];
    }
  }

  /** Sending a chunk when nothing is buffered. */
  lemma SendChunk(s: State, p: Part, out: Bytes, parts: seq<Part>, written: Bytes)
    requires Open(s) && InChunks(s) && s.buffer == [] && Framed(s, out, parts, written)
    ensures var (s1, out1) := Send(s, Sized(p.size, p.bytes));
            Open(s1) && Framed(s1, out + out1, parts + [p], written + p.bytes)
  {
    hide Sized;
    var parts', chunk := parts + [p], Sized(p.size, p.bytes);
    SentAppend(parts, p);
    assert Total([]) == [] && BytesOf(parts) + [] == BytesOf(parts) && BytesOf(parts') + [] == BytesOf(parts');
    if s.headerSent {
      assert (Lead(s) + Sent(parts)) + chunk == Lead(s) + (Sent(parts) + chunk);
    } else {
      assert Sent([]) == [] && out == [];
      assert [] + (s.header.value + chunk) == s.header.value + ([] + chunk);
    }
  }

  lemma {:induction false} UncorkFramed(s: State, out: Bytes, parts: seq<Part>, written: Bytes)
    requires Open(s) && s.corked > 0 && Framed(s, out, parts, written)
    ensures var (s1, out1) := Uncorked(s); Open(s1) && Framed(s1, out + out1, parts + ChunkOf(s, Uncork), written)
  {
    hide Sized, Sent, BytesOf, Total, Sizes;
    assert out + [] == out && parts + [] == parts;
    if s.corked == 1 && s.buffer != [] && InChunks(s) {
      FlushBuffer(s, out, parts, written);
    }
  }

  lemma FlushBuffer(s: State, out: Bytes, parts: seq<Part>, written: Bytes)
    requires Open(s) && s.buffer != [] && InChunks(s) && Framed(s, out, parts, written)
    ensures var p := Part(Sizes(s.buffer), Total(s.buffer));
            Framed(s.(corked := 0, buffer := []), out + Sized(p.size, p.bytes), parts + [p], written)
  {
    hide Sized, Sizes;
    var p := Part(Sizes(s.buffer), Total(s.buffer));
    SentAppend(parts, p);
    assert (Lead(s) + Sent(parts)) + Sized(p.size, p.bytes) == Lead(s) + (Sent(parts) + Sized(p.size, p.bytes));
    assert Total([]) == [] && BytesOf(parts + [p]) + [] == BytesOf(parts + [p]);
  }

  /** Every call but `end` keeps the message open and framed. */
  lemma {:induction false} StepFramed(s: State, op: Op, out: Bytes, parts: seq<Part>, written: Bytes)
    requires Open(s) && WellMade(op) && !op.End? && (op == Uncork ==> s.corked > 0)
    requires Framed(s, out, parts, written)
    ensures var (s1, out1) := Step(s, op);
            Open(s1) && Framed(s1, out + out1, parts + ChunkOf(s, op), written + Given(s, op))
  {
    Neutral(out);
    Neutral(written);
    assert parts + [] == parts;
    match op
    case WriteHead(h) =>
      hide StartHead, Sized, Sent, BytesOf, Total;
      StartFramed(s, h, out, parts, written);
    case FlushHeaders(h) => FlushFramed(s, h, out, parts, written);
    case Write(data, h) => WriteCallFramed(s, data, h, out, parts, written);
    case Uncork =>
      hide Uncorked, Sized, Sent, BytesOf, Total;
      UncorkFramed(s, out, parts, written);
    case _ =>
      hide Sized, Sent, BytesOf, Total;
  }

  lemma Neutral(a: Bytes)
    ensures a + [] == a
  {
  }

  lemma FlushFramed(s: State, h: Head, out: Bytes, parts: seq<Part>, written: Bytes)
    requires Open(s) && Framed(s, out, parts, written)
    ensures var (s1, out1) := Step(s, FlushHeaders(h)); Open(s1) && Framed(s1, out + out1, parts, written)
  {
    hide StartHead, Sized, Sent, BytesOf, Total, Send;
    StartFramed(s, h, out, parts, written);
    var (s1, out1) := StartHead(s, h);
    if s1.header.Some? {
      if InChunks(s1) {
        SendNothing(s1, out + out1, parts, written);
      }
      SendOpen(s1, []);
      assert out + (out1 + Send(s1, []).1) == out + out1 + Send(s1, []).1;
    }
  }

  lemma {:induction false} WriteCallFramed(s: State, data: Data, h: Head, out: Bytes, parts: seq<Part>, written: Bytes)
    requires Open(s) && Encoded(data) && Framed(s, out, parts, written)
    ensures var (s1, out1) := Step(s, Write(data, h));
            Open(s1) && Framed(s1, out + out1, parts + ChunkOf(s, Write(data, h)), written + Given(s, Write(data, h)))
  {
    hide StartHead, WriteBody, Sized, Sent, BytesOf, Total;
    assert parts + [] == parts;
    Neutral(written);
    StartFramed(s, h, out, parts, written);
    var (s1, out1) := StartHead(s, h);
    if s1.header.Some? {
      WriteFramed(s1, data, out + out1, parts, written);
      assert out + (out1 + WriteBody(s1, data).1) == out + out1 + WriteBody(s1, data).1;
    }
  }

  lemma SendOpen(s: State, data: Bytes)
    requires Open(s)
    ensures var s1 := Send(s, data).0;
            Open(s1) && s1.buffer == s.buffer && s1.corked == s.corked && s1.header == s.header &&
            s1.framing == s.framing
  {
    hide IsLine;
  }

  lemma {:induction false} StartFramed(s: State, h: Head, out: Bytes, parts: seq<Part>, written: Bytes)
    requires Open(s) && Framed(s, out, parts, written)
    ensures var (s1, out1) := StartHead(s, h);
            Open(s1) && Framed(s1, out + out1, parts, written) && s1.corked == s.corked && s1.buffer == s.buffer
  {
    assert out + [] == out;
    if s.header.None? {
      HeadFramed(s, h, out, written);
    }
  }

  // ------------------------------------------------------------------ whole runs

  lemma {:induction false} RunFramed(s: State, ops: seq<Op>)
    requires Open(s) && s.header.None? && s.buffer == []
    requires forall i :: 0 <= i < |ops| ==> WellMade(ops[i]) && !ops[i].End?
    requires Matched(s, ops)
    ensures var (s1, out1) := Run(s, ops); Open(s1) && Framed(s1, out1, Chunks(s, ops), Written(s, ops))
    decreases |ops|
  {
    hide Framed, Open, Step, Given, ChunkOf, WellMade;
    if ops == [] {
      NothingFramed(s);
    } else {
      var before, op := ops[..|ops| - 1], ops[|ops| - 1];
      assert Matched(s, before) by {
        assert forall i :: 0 <= i < |before| ==> before[..i] == ops[..i];
      }
      RunFramed(s, before);
      var (s1, out1) := Run(s, before);
      StepFramed(s1, op, out1, Chunks(s, before), Written(s, before));
    }
  }

  lemma NothingFramed(s: State)
    requires s.header.None?
    ensures Framed(s, [], [], [])
  {
  }

  /** `end` takes the length of its own data for the whole when no header is stored yet. */
  function WithLength(s: State, last: Option<Data>): State {
    var length := if last.Some? then last.value.size else 0;
    if s.header.Some? then s else s.(framing := s.framing.(contentLength := Some(length)))
  }

  /** Nothing is held back in a buffer when the last chunk goes. */
  predicate EndsClean(s: State, last: Option<Data>, h: Head) {
    var s1 := StartHead(WithLength(s, last), h).0;
    s1.corked == 0 || (s1.buffer == [] && (last.None? || last.value.length == 0 || !s1.headerSent))
  }

  /** The data that is still in the buffer then. */
  function HeldBack(s: State, last: Option<Data>, h: Head): Bytes {
    Total(AtLast(s, last, h).0.buffer)
  }

  /** What the forced uncork of `end` sends. */
  function Late(s: State): Bytes {
    if s.buffer == [] then [] else Sized(Sizes(s.buffer), Total(s.buffer))
  }

  /**
   * The last call: the header, whole chunks, the last chunk, and then, wrongly
   * after it, whatever was still buffered.
   */
  lemma FinishFramed(s: State, out: Bytes, parts: seq<Part>, written: Bytes)
    requires Open(s) && InChunks(s) && Framed(s, out, parts, written)
    ensures out + Finish(s).1 ==
            s.header.value + (Sent(parts) + LastFrame(s.trailers) + Late(s))
  {
    hide Sized, Sent, LastFrame, Total, BytesOf, Sizes;
    var (s1, out1) := Send(s, LastFrame(s.trailers));
    var (s2, out2) := Uncorked(s1.(corked := 1));
    assert Finish(s).1 == out1 + out2;
    assert out2 == Late(s);
    NothingIsSent();
    if s.headerSent {
      assert out + (LastFrame(s.trailers) + out2) == s.header.value + (Sent(parts) + LastFrame(s.trailers) + out2);
    } else {
      assert [] + (s.header.value + LastFrame(s.trailers) + out2) == s.header.value + ([] + LastFrame(s.trailers) + out2);
    }
  }

  lemma NothingIsSent()
    ensures Sent([]) == []
  {
  }

  /** After `end`, no call hands on another byte. */
  ghost predicate Done(s: State) {
    s.finished && s.header.Some? && s.headerSent && s.buffer == []
  }

  lemma StepDone(s: State, op: Op)
    requires Done(s)
    ensures Done(Step(s, op).0) && Step(s, op).1 == []
  {
    hide ChooseFraming, Sized, Total, Finish;
  }

  lemma {:induction false} RunDone(s: State, ops: seq<Op>)
    requires Done(s)
    ensures Done(Run(s, ops).0) && Run(s, ops).1 == []
    decreases |ops|
  {
    hide Step;
    if ops != [] {
      RunDone(s, ops[..|ops| - 1]);
      StepDone(Run(s, ops[..|ops| - 1]).0, ops[|ops| - 1]);
    }
  }

  lemma {:induction false} RunAppend(s: State, a: seq<Op>, b: seq<Op>)
    ensures Run(s, a + b) == Then(Run(s, a), Run(Run(s, a).0, b))
    decreases |b|
  {
    hide Step;
    if b == [] {
      assert a + b == a;
      Neutral(Run(s, a).1);
    } else {
      var init := b[..|b| - 1];
      assert (a + b)[..|a + b| - 1] == a + init;
      RunAppend(s, a, init);
      var (s1, out1) := Run(s, a);
      var (s2, out2) := Run(s1, init);
      var out3 := Step(s2, b[|b| - 1]).1;
      assert out1 + out2 + out3 == out1 + (out2 + out3);
    }
  }

  /** What `end` has got to when it sends the last chunk: the header stored and its own data written. */
  function AtLast(s: State, last: Option<Data>, h: Head): (State, Bytes) {
    var (s1, out1) := StartHead(WithLength(s, last), h);
    if s1.header.None? || last.None? then (s1, out1) else Then((s1, out1), WriteBody(s1, last.value))
  }

  lemma {:induction false} EndUnfolds(s: State, last: Option<Data>, h: Head)
    requires !s.finished
    ensures var (s2, out2) := AtLast(s, last, h);
            if s2.header.None? then Step(s, End(last, h)) == (s2, out2)
            else Step(s, End(last, h)) == Then((s2, out2), Finish(s2))
  {
    hide StartHead, WriteBody, Finish;
    var s0 := WithLength(s, last);
    var (s1, out1) := StartHead(s0, h);
    if s1.header.Some? {
      if last.Some? {
        WriteKeepsHeader(s1, last.value);
        var (s2, out2) := WriteBody(s1, last.value);
        assert out1 + (out2 + Finish(s2).1) == out1 + out2 + Finish(s2).1;
      } else {
        assert out1 + ([] + Finish(s1).1) == out1 + Finish(s1).1;
      }
    }
  }

  lemma WriteKeepsHeader(s: State, data: Data)
    ensures WriteBody(s, data).0.header == s.header && WriteBody(s, data).0.framing == s.framing
    ensures WriteBody(s, data).0.trailers == s.trailers && WriteBody(s, data).0.corked == s.corked
  {
    hide Sized;
  }

  /** Up to there everything is as after any other call. */
  lemma {:induction false} AtLastFramed(s: State, last: Option<Data>, h: Head, out: Bytes, parts: seq<Part>, written: Bytes)
    requires Open(s) && (last.Some? ==> Encoded(last.value)) && Framed(s, out, parts, written)
    ensures var (s2, out2) := AtLast(s, last, h);
            && Open(s2) && s2.trailers == s.trailers
            && (InChunks(s2) ==>
                  Framed(s2, out + out2, parts + ChunkOf(s, End(last, h)),
                         written + (if last.Some? then last.value.bytes else [])) &&
                  (s2.buffer == [] <==> EndsClean(s, last, h)))
  {
    hide StartHead, WriteBody, Sized, Sent, BytesOf, Total, Open, Framed;
    var s0 := WithLength(s, last);
    LengthFramed(s, s0, out, parts, written);
    StartFramed(s0, h, out, parts, written);
    StartKeepsTrailers(s0, h);
    var (s1, out1) := StartHead(s0, h);
    assert parts + [] == parts;
    Neutral(written);
    OpenUnfinished(s);
    if last.Some? && s1.header.Some? {
      WriteKeepsHeader(s1, last.value);
      WriteFramed(s1, last.value, out + out1, parts, written);
      assert out + (out1 + WriteBody(s1, last.value).1) == out + out1 + WriteBody(s1, last.value).1;
    }
    if InChunks(s1) {
      CleanBuffer(s1, last);
    }
  }

  lemma OpenUnfinished(s: State)
    requires Open(s)
    ensures !s.finished
  {
  }

  lemma LengthFramed(s: State, s0: State, out: Bytes, parts: seq<Part>, written: Bytes)
    requires Open(s) && Framed(s, out, parts, written)
    requires s0 == s || (s.header.None? && s0 == s.(framing := s0.framing))
    ensures Open(s0) && Framed(s0, out, parts, written)
  {
    hide Sized, Sent, BytesOf, Total;
  }

  lemma StartKeepsTrailers(s: State, h: Head)
    ensures StartHead(s, h).0.trailers == s.trailers
  {
    hide ChooseFraming;
  }

  lemma CleanBuffer(s: State, last: Option<Data>)
    requires Open(s) && InChunks(s)
    ensures (if last.None? then s else WriteBody(s, last.value).0).buffer == [] <==>
            s.corked == 0 || (s.buffer == [] && (last.None? || last.value.length == 0 || !s.headerSent))
  {
    hide Sized;
  }

  lemma FinishDone(s: State)
    requires s.header.Some?
    ensures Done(Finish(s).0) && Finish(s).0.header == s.header && Finish(s).0.framing == s.framing
  {
    hide Sized, LastFrame, Total;
  }

  lemma ChunkNonEmpty(size: nat, d: Bytes)
    ensures Sized(size, d) != []
  {
    hide Hex;
    assert |Sized(size, d)| >= 2;
  }

  /**
   * The framing law. A new message is written to, corked and uncorked in any
   * order that matches, then ended, then called some more. If it is sent in
   * chunks, its bytes are the header and then a text that a chunked reader takes
   * for exactly the data given, in call order, with the trailers, with nothing
   * after its one last chunk - if and only if nothing was held back by a cork
   * when `end` was called, no chunk sent was empty, and every chunk was announced
   * with its size. Estimates may be too high; a chunk whose size is more than two
   * too high must not be followed by data that begins like its line end.
   */
  lemma {:induction false} ChunkedMessage(s: State, ops: seq<Op>, last: Option<Data>, h: Head, after: seq<Op>)
    requires Open(s) && s.header.None? && s.buffer == []
    requires forall i :: 0 <= i < |ops| ==> WellMade(ops[i]) && !ops[i].End?
    requires Matched(s, ops) && WellMade(End(last, h))
    requires InChunks(Step(Run(s, ops).0, End(last, h)).0)
    requires Estimates(Chunks(s, ops + [End(last, h)]))
    requires Clear(Chunks(s, ops + [End(last, h)]), HeldBack(Run(s, ops).0, last, h))
    ensures var s1 := Run(s, ops).0;
            var header := Step(s1, End(last, h)).0.header.value;
            var all := Run(s, ops + [End(last, h)] + after).1;
            && header <= all
            && (Read(all[|header|..]) ==
                  Some(Message(Written(s, ops) + (if last.Some? then last.value.bytes else []), s1.trailers, []))
                <==> EndsClean(s1, last, h) && AllSound(Chunks(s, ops + [End(last, h)])))
  {
    hide *;
    RunFramed(s, ops);
    var (s1, out1) := Run(s, ops);
    ChunksLast(s, ops, End(last, h));
    MessageEnds(s1, last, h, out1, Chunks(s, ops), Written(s, ops));
    MessageBytes(s, ops, last, h, after);
  }

  lemma ChunksLast(s: State, ops: seq<Op>, op: Op)
    ensures Chunks(s, ops + [op]) == Chunks(s, ops) + ChunkOf(Run(s, ops).0, op)
  {
    hide ChunkOf;
    var all := ops + [op];
    assert all[..|all| - 1] == ops && all[|all| - 1] == op;
  }

  /** Only the calls up to `end` count. */
  lemma MessageBytes(s: State, ops: seq<Op>, last: Option<Data>, h: Head, after: seq<Op>)
    requires Done(Step(Run(s, ops).0, End(last, h)).0)
    ensures Run(s, ops + [End(last, h)] + after).1 == Run(s, ops).1 + Step(Run(s, ops).0, End(last, h)).1
  {
    hide Step, Done;
    var (s1, out1) := Run(s, ops);
    var op := End(last, h);
    var (s2, out2) := Step(s1, op);
    RunAppend(s, ops + [op], after);
    RunLast(s, ops, op);
    RunDone(s2, after);
    assert out1 + out2 + [] == out1 + out2;
  }

  lemma RunLast(s: State, ops: seq<Op>, op: Op)
    ensures Run(s, ops + [op]) == Then(Run(s, ops), Step(Run(s, ops).0, op))
  {
    hide Step;
    var all := ops + [op];
    assert all[..|all| - 1] == ops && all[|all| - 1] == op;
  }

  /** The whole text of a message in chunks, and how it reads. */
  lemma {:induction false} MessageEnds(s: State, last: Option<Data>, h: Head, out: Bytes, parts: seq<Part>, written: Bytes)
    requires Open(s) && WellMade(End(last, h)) && Framed(s, out, parts, written)
    requires InChunks(Step(s, End(last, h)).0)
    requires Estimates(parts + ChunkOf(s, End(last, h))) && Clear(parts + ChunkOf(s, End(last, h)), HeldBack(s, last, h))
    ensures var (s', out') := Step(s, End(last, h));
            && Done(s') && s'.header.value <= out + out'
            && (Read((out + out')[|s'.header.value|..]) ==
                  Some(Message(written + (if last.Some? then last.value.bytes else []), s.trailers, []))
                <==> EndsClean(s, last, h) && AllSound(parts + ChunkOf(s, End(last, h))))
  {
    hide Step, AtLast, Finish, Framed, Sized, Sent, LastFrame, BytesOf, Total, Read, EndsClean, ChunkOf, Late;
    var given := written + (if last.Some? then last.value.bytes else []);
    var parts' := parts + ChunkOf(s, End(last, h));
    EndUnfolds(s, last, h);
    AtLastFramed(s, last, h, out, parts, written);
    var (s2, out2) := AtLast(s, last, h);
    assert s2.header.Some?;
    FinishDone(s2);
    FinishFramed(s2, out + out2, parts', given);
    FramedParts(s2, out + out2, parts', given);
    LateEmpty(s2);
    var body := Sent(parts') + LastFrame(s.trailers) + Late(s2);
    SentReadsBack(parts', Total(s2.buffer), s.trailers, Late(s2));
    Regroup(out, out2, Finish(s2).1, s2.header.value, body);
  }

  lemma Regroup(a: Bytes, b: Bytes, c: Bytes, header: Bytes, body: Bytes)
    requires a + b + c == header + body
    ensures a + (b + c) == header + body && header <= a + (b + c) && (a + (b + c))[|header|..] == body
  {
    assert a + (b + c) == a + b + c;
  }

  lemma FramedParts(s: State, out: Bytes, parts: seq<Part>, written: Bytes)
    requires Framed(s, out, parts, written) && InChunks(s)
    ensures BytesOf(parts) + Total(s.buffer) == written && (s.buffer == [] ==> Total(s.buffer) == [])
  {
  }

  lemma LateEmpty(s: State)
    ensures Late(s) == [] <==> s.buffer == []
  {
    ChunkNonEmpty(Sizes(s.buffer), Total(s.buffer));
  }

  // --------------------------------------------------------- where it goes wrong

  /** Measured data that has lost all its bytes is sent as the last chunk, and a reader stops there. */
  lemma DroppedDataEnds(s: State, data: Data, tail: Bytes)
    requires InChunks(s) && s.headerSent && s.corked == 0 && data.length > 0 && data.bytes == [] && data.size == 0
    ensures Read(WriteBody(s, data).1 + tail) == Some(Message([], [], tail))
  {
    EmptyIsLast();
    ReadLastFrame([], tail);
  }

  /**
   * Data whose byte length is estimated one or two too high breaks the message:
   * the next chunk starts with a digit and so does the last one, and a reader
   * finds no line end where it looks for it.
   */
  lemma OverstatedData(s: State, data: Data, tail: Bytes)
    requires InChunks(s) && s.headerSent && s.corked == 0 && data.length > 0
    requires data.size == |data.bytes| + 1 || data.size == |data.bytes| + 2
    requires tail != [] && IsHex(tail[0])
    ensures Read(WriteBody(s, data).1 + tail) == None
  {
    OverstatedBreaks(data.size, data.bytes, tail);
  }

  /** "aGVs", a line end and "bG8=" in base64: nine characters, an estimate of six bytes, and the five of "hello". */
  const BROKEN_BASE64: Data := Data([0x68, 0x65, 0x6C, 0x6C, 0x6F], 9, 6)

  /** "zz" in hexadecimal: two characters, an estimate of one byte, and none. */
  const NO_HEX: Data := Data([], 2, 1)

  /** Two inputs whose messages cannot be read back. */
  lemma EstimatesBreak(s: State)
    requires InChunks(s) && s.headerSent && s.corked == 0
    ensures Read(WriteBody(s, BROKEN_BASE64).1 + LastFrame([])) == None
    ensures Read(WriteBody(s, NO_HEX).1 + LastFrame([])) == None
  {
    OverstatedData(s, BROKEN_BASE64, LastFrame([]));
    OverstatedData(s, NO_HEX, LastFrame([]));
  }

  /** A new keep-alive response to a GET request. */
  const NEW: State := Fresh(false, true, false, true, false, Hint(0, 0, true))

  const PLAIN_HEAD: Head := Head(200, [], NoConnection, NoCoding, None, false, false, false)

  /** The input: "a" is written, the response is corked, "b" is written, and it ends. The last chunk comes before "b". */
  lemma {:induction false} CorkedEnd()
    ensures var a, b := Data([0x61], 1, 1), Data([0x62], 1, 1);
            var ops := [Write(a, PLAIN_HEAD), Cork, Write(b, PLAIN_HEAD), End(None, PLAIN_HEAD)];
            var (s, out) := Run(NEW, ops);
            && s.header.Some? && out == s.header.value + (Frame(a.bytes) + LastFrame([]) + Frame(b.bytes))
            && Read(Frame(a.bytes) + LastFrame([]) + Frame(b.bytes)) == Some(Message(a.bytes, [], Frame(b.bytes)))
  {
    hide Frame, LastFrame, Read, Run, Step, InChunks;
    var a, b := Data([0x61], 1, 1), Data([0x62], 1, 1);
    var w, c, v, e := Write(a, PLAIN_HEAD), Cork, Write(b, PLAIN_HEAD), End(None, PLAIN_HEAD);
    RunFirst(NEW, w);
    RunLast(NEW, [w], c);
    RunLast(NEW, [w, c], v);
    RunLast(NEW, [w, c, v], e);
    assert [w] + [c] == [w, c] && [w, c] + [v] == [w, c, v] && [w, c, v] + [e] == [w, c, v, e];
    var s1 := FirstWrite(a);
    var s3 := HoldBack(s1, b);
    EndBuffered(s3, b);
    Join(s1.header.value, Frame(a.bytes), LastFrame([]), Frame(b.bytes));
    ReadFrame(a.bytes, LastFrame([]) + Frame(b.bytes));
    ReadLastFrame([], Frame(b.bytes));
    Neutral(a.bytes);
  }

  lemma RunFirst(s: State, op: Op)
    ensures Run(s, [op]) == Step(s, op)
  {
    RunLast(s, [], op);
    assert [] + [op] == [op] && [] + Step(s, op).1 == Step(s, op).1;
  }

  lemma Join(h: Bytes, a: Bytes, z: Bytes, b: Bytes)
    ensures h + a + [] + [] + (z + b) == h + (a + z + b) && a + (z + b) == a + z + b
  {
  }

  lemma IsFrame(data: Data)
    requires data.size == |data.bytes|
    ensures Sized(data.size, data.bytes) == Frame(data.bytes)
  {
  }

  lemma {:induction false} FirstWrite(a: Data) returns (s: State)
    requires a.size == |a.bytes| && a.length > 0
    ensures var (s', out) := Step(NEW, Write(a, PLAIN_HEAD));
            s == s' && s.header.Some? && out == s.header.value + Frame(a.bytes)
    ensures InChunks(s) && s.headerSent && s.corked == 0 && s.buffer == [] && s.trailers == [] && !s.finished
  {
    hide Frame, Sized, Ascii, Decimal;
    s := Step(NEW, Write(a, PLAIN_HEAD)).0;
    IsFrame(a);
    assert [] + (s.header.value + Frame(a.bytes)) == s.header.value + Frame(a.bytes);
  }

  /** A cork and a write behind it send nothing. */
  lemma {:induction false} HoldBack(s: State, b: Data) returns (s2: State)
    requires InChunks(s) && s.headerSent && s.corked == 0 && s.buffer == [] && !s.finished && b.length > 0
    ensures var s1 := Step(s, Cork).0;
            Step(s, Cork).1 == [] && Step(s1, Write(b, PLAIN_HEAD)) == (s2, []) && s2 == s1.(buffer := [b])
    ensures InChunks(s2) && s2.headerSent && s2.trailers == s.trailers && s2.header == s.header && !s2.finished
  {
    s2 := Step(s, Cork).0.(buffer := [b]);
    assert [] + [b] == [b];
    Neutral([]);
  }

  lemma {:induction false} EndBuffered(s: State, b: Data)
    requires InChunks(s) && s.headerSent && !s.finished && s.buffer == [b] && s.trailers == [] && b.size == |b.bytes|
    ensures Step(s, End(None, PLAIN_HEAD)).1 == LastFrame([]) + Frame(b.bytes)
    ensures Step(s, End(None, PLAIN_HEAD)).0.header == s.header
  {
    hide Finish, Frame, LastFrame;
    EndUnfolds(s, None, PLAIN_HEAD);
    FinishBuffered(s, b);
    assert [] + (LastFrame([]) + Frame(b.bytes)) == LastFrame([]) + Frame(b.bytes);
  }

  lemma {:induction false} FinishBuffered(s: State, b: Data)
    requires InChunks(s) && s.headerSent && s.buffer == [b] && s.trailers == [] && b.size == |b.bytes|
    ensures Finish(s).1 == LastFrame([]) + Frame(b.bytes) && Finish(s).0.header == s.header
  {
    hide Frame, LastFrame, Sized;
    IsFrame(b);
    assert Sizes([b]) == Sizes([]) + b.size;
    assert [b][..0] == [];
    assert Total([b]) == [] + b.bytes == b.bytes;
  }

  // ---------------------------------------------------------- automatic lengths

  /** The number that a text ends with. */
  function EndNumber(t: Bytes): nat {
    if t == [] || !(0x30 <= t[|t| - 1] < 0x3A) then 0
    else EndNumber(t[..|t| - 1]) * 10 + (t[|t| - 1] - 0x30)
  }

  /** The length that a header announces on its last line, read off its bytes. */
  function Announced(header: Bytes): nat {
    if |header| < 4 then 0 else EndNumber(header[..|header| - 4])
  }

  lemma {:induction false} EndNumberOfDecimal(front: Bytes, n: nat)
    requires front == [] || !(0x30 <= front[|front| - 1] < 0x3A)
    ensures EndNumber(front + Ascii(Decimal(n))) == n
    decreases n
  {
    hide Ascii, Decimal;
    var t := front + Ascii(Decimal(n));
    DecimalAscii(n);
    if n < 10 {
      assert t == front + [0x30 + n] && t[..|t| - 1] == front;
    } else {
      EndNumberOfDecimal(front, n / 10);
      assert t == front + Ascii(Decimal(n / 10)) + [0x30 + n % 10];
      assert t[..|t| - 1] == front + Ascii(Decimal(n / 10));
    }
  }

  lemma DecimalAscii(n: nat)
    ensures Ascii(Decimal(n)) == if n < 10 then [0x30 + n] else Ascii(Decimal(n / 10)) + [0x30 + n % 10]
  {
    if n >= 10 {
      AsciiJoined(Decimal(n / 10), [('0' as int + n % 10) as char]);
    }
  }

  lemma AnnouncedLine(lead: Bytes, size: nat)
    ensures Announced(lead + LengthLine(size) + CRLF) == size
  {
    hide Decimal;
    var header, front := lead + LengthLine(size) + CRLF, lead + Ascii("Content-Length: ");
    assert front[|front| - 1] == 0x20;
    assert header[..|header| - 4] == front + Ascii(Decimal(size)) by {
      assert LengthLine(size) == Ascii("Content-Length: ") + Ascii(Decimal(size)) + CRLF;
    }
    EndNumberOfDecimal(front, size);
  }

  /** The header will get a length: nothing about the framing is set, removed or announced by the caller. */
  predicate LengthChosen(f: Framing, h: Head) {
    && f.hasBody && !Bodiless(h.status) && f.chunkedByDefault && !f.chunked && !f.removed.length
    && h.contentLength.None? && h.coding == NoCoding && !h.trailer
  }

  /**
   * A response that ends with its first and only data: the header is followed by
   * that data, and the number on its last line is the number of bytes that follow
   * it if and only if their byte length is right.
   */
  lemma {:induction false} EndAnnounces(s: State, last: Option<Data>, h: Head)
    requires s.header.None? && !s.headerSent && !s.finished && s.buffer == [] && LengthChosen(s.framing, h)
    ensures var (s', out) := Step(s, End(last, h));
            var (body, size) := if last.Some? then (last.value.bytes, last.value.size) else ([], 0);
            && s'.header.Some? && out == s'.header.value + body
            && (exists lead :: h.text <= lead && s'.header.value == lead + LengthLine(size) + CRLF)
            && (Announced(s'.header.value) == |body| <==> (last.Some? ==> last.value.size == |last.value.bytes|))
  {
    hide LengthLine, ConnectionLine, MatchHeaders, Ascii, Decimal, Frame, Sized, LastFrame, Total, Sizes, Announced,
         StartHead;
    var s0 := WithLength(s, last);
    var (body, size) := if last.Some? then (last.value.bytes, last.value.size) else ([], 0);
    LengthStored(s0, h, size);
    var (s1, out1) := StartHead(s0, h);
    EndUnfolds(s, last, h);
    var header := s1.header.value;
    EndPlain(s1, last);
    if s1.headerSent {
      assert header + ([] + []) == header;
      assert header + body + [] == header + body;
    }
  }

  lemma LengthStored(s: State, h: Head, size: nat)
    requires s.header.None? && LengthChosen(s.framing, h) && s.framing.contentLength == Some(size)
    ensures var (s1, out1) := StartHead(s, h);
            && s1.header.Some? && (exists lead :: h.text <= lead && s1.header.value == lead + LengthLine(size) + CRLF)
            && Announced(s1.header.value) == size
            && !s1.framing.chunked && s1.framing.hasBody && s1.buffer == s.buffer && s1.finished == s.finished
            && (if s1.headerSent then out1 == s1.header.value else out1 == [])
  {
    hide LengthLine, ConnectionLine, MatchHeaders, Ascii, Decimal, Announced;
    MatchFacts(s.framing, h);
    var f1 := MatchHeaders(s.framing, h);
    ConnectionFacts(f1, h);
    var (f2, connection) := ConnectionLine(f1, h);
    var lead := h.text + connection;
    var header := lead + LengthLine(size) + CRLF;
    assert ChooseFraming(s.framing, h).1 == Some(header);
    AnnouncedLine(lead, size);
    assert header + [] == header;
  }

  /** What follows a header that is stored, for a body without chunks. */
  lemma EndPlain(s: State, last: Option<Data>)
    requires s.header.Some? && !s.framing.chunked && s.framing.hasBody && s.buffer == []
    ensures var body := if last.Some? then last.value.bytes else [];
            var (s2, out2) := if last.Some? then WriteBody(s, last.value) else (s, []);
            && s2.header == s.header
            && out2 + Finish(s2).1 == (if s.headerSent then [] else s.header.value) + body
            && Finish(s2).0.header == s.header
  {
    hide Sized, LastFrame, Total, Sizes;
    var body := if last.Some? then last.value.bytes else [];
    assert body + [] + [] == body && [] + body == body;
    assert s.header.value + body + ([] + []) == s.header.value + body;
    assert [] + (s.header.value + [] + []) == s.header.value + [];
  }
}
