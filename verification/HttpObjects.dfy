/**
 * The objects of lib/_http_outgoing.js and lib/_http_server.js: a response with
 * its output queue, and a connection with its list of waiting responses, each
 * updated in place as the original does and tied to the state machines.
 */
module HttpObjects {
  import opened CodeUnits
  import opened Results
  import opened HttpChunked
  import opened HttpMessage
  import opened HttpFraming
  import opened HttpPipeline

  function Lengths(output: seq<Data>): nat {
    if output == [] then 0 else Lengths(output[..|output| - 1]) + output[|output| - 1].length
  }

  lemma LengthsAppend(output: seq<Data>, d: Data)
    ensures Lengths(output + [d]) == Lengths(output) + d.length
    ensures Total(output + [d]) == Total(output) + d.bytes
  {
    assert (output + [d])[..|output|] == output;
  }

  function Text(bytes: Bytes): Data { Data(bytes, |bytes|, |bytes|) }

  /**
   * What a response has to do with the world: all bytes it has made that are on
   * the wire or in its queue, the connection's count without its own share, and
   * the wire as far as others wrote it.
   */
  datatype Sink = Sink(stream: Bytes, balance: int, elsewhere: Bytes) {
    function Plus(out: Bytes): Sink { this.(stream := stream + out) }

    lemma PlusPlus(a: Bytes, b: Bytes)
      ensures Plus(a).Plus(b) == Plus(a + b)
    {
      assert stream + a + b == stream + (a + b);
    }

    lemma PlusNothing()
      ensures Plus([]) == this
    {
      assert stream + [] == stream;
    }
  }

  lemma NothingQueued()
    ensures Total([]) == [] && Lengths([]) == 0
  {
  }

  lemma PlusFields(r: Sink, out: Bytes)
    ensures r.Plus(out) == Sink(r.stream + out, r.balance, r.elsewhere)
  {
  }

  /** Two sends in a row hand on what one send of both does. */
  lemma SendSend(s: State, a: Bytes, b: Bytes)
    ensures var (s1, out1) := Send(s, a); Then((s1, out1), Send(s1, b)) == Send(s, a + b)
  {
    if !s.headerSent && s.header.Some? {
      assert s.header.value + a + b == s.header.value + (a + b);
    }
  }

  /** The same for what a response has to do with the world. */
  lemma ReachSends(r: Sink, s: State, a: Bytes, b: Bytes)
    ensures var (s1, out1) := Send(s, a);
            && Send(s1, b).0 == Send(s, a + b).0
            && r.Plus(out1).Plus(Send(s1, b).1) == r.Plus(Send(s, a + b).1)
  {
    var (s1, out1) := Send(s, a);
    SendSend(s, a, b);
    r.PlusPlus(out1, Send(s1, b).1);
  }

  lemma SendKeepsBuffer(s: State, data: Bytes)
    ensures Send(s, data).0.(buffer := []) == Send(s.(buffer := []), data).0
    ensures Send(s, data).1 == Send(s.(buffer := []), data).1
    ensures Send(s, data).0.buffer == s.buffer && Send(s, data).0.header == s.header
  {
  }

  lemma SentSoFar(sent: Bytes, buffer: seq<Data>)
    ensures sent + Total(buffer[..0]) == sent
  {
  }

  lemma SentNext(sent: Bytes, buffer: seq<Data>, n: nat)
    requires n < |buffer|
    ensures sent + Total(buffer[..n + 1]) == sent + Total(buffer[..n]) + buffer[n].bytes
  {
    assert buffer[..n + 1] == buffer[..n] + [buffer[n]];
    LengthsAppend(buffer[..n], buffer[n]);
  }

  lemma EndTwice(s: State, last: Option<Data>, h: Head)
    requires s.finished
    ensures Step(s, End(last, h)) == (s, [])
  {
  }

  lemma SizesAppend(buffer: seq<Data>, d: Data)
    ensures Sizes(buffer + [d]) == Sizes(buffer) + d.size
  {
    assert (buffer + [d])[..|buffer|] == buffer;
  }

  lemma ChunkOfParts(size: nat, data: Bytes)
    ensures Hex(size) + CRLF + data + CRLF == Sized(size, data)
  {
  }

  class Response {
    /** The connection that `_onPendingData` counts for. */
    const conn: Connection
    /** The socket, while it is this response's turn. */
    var socket: Connection?
    var framing: Framing
    var header: Option<Bytes>
    var headerSent: bool
    var corked: int
    var buffer: seq<Data>
    var chunkedLength: nat
    var trailers: seq<Bytes>
    var finished: bool
    var outputData: seq<Data>
    var outputSize: int

    ghost function Value(): State
      reads this`framing, this`header, this`headerSent, this`corked, this`buffer, this`trailers, this`finished
    {
      State(framing, header, headerSent, corked, buffer, trailers, finished)
    }

    ghost predicate Owner()
      reads this`socket, conn`httpMessage, conn`writable
    {
      socket == conn && conn.httpMessage == this && conn.writable
    }

    ghost predicate Counted()
      reads this`socket, this`outputData, this`outputSize
    {
      (socket == null || socket == conn) && outputSize == Lengths(outputData)
    }

    /** The queue's counter is exact, and nothing is queued by the owner of the socket or before the header. */
    ghost predicate Queue()
      reads this`socket, this`header, this`headerSent, this`outputData, this`outputSize, conn`httpMessage, conn`writable
    {
      && Counted() && (headerSent ==> header.Some?)
      && (!headerSent || Owner() ==> outputData == [])
    }

    ghost predicate Ok()
      reads this`socket, this`header, this`headerSent, this`outputData, this`outputSize, conn`httpMessage, conn`writable
      reads this`buffer, this`chunkedLength
    {
      Queue() && chunkedLength == Sizes(buffer) && (buffer != [] ==> header.Some?)
    }

    /** `Ok` without the owner's part, which is the connection's to say. */
    ghost predicate Kept()
      reads this`socket, this`header, this`headerSent, this`outputData, this`outputSize, this`buffer, this`chunkedLength
    {
      && Counted() && (headerSent ==> header.Some?) && (!headerSent ==> outputData == [])
      && chunkedLength == Sizes(buffer) && (buffer != [] ==> header.Some?)
    }

    lemma OkIsKept()
      ensures Ok() <==> Kept() && (Owner() ==> outputData == [])
    {
    }

    ghost function Reach(): Sink
      reads this`socket, this`outputData, this`outputSize
      reads conn`httpMessage, conn`writable, conn`wire, conn`outgoingData
    {
      if Owner() then Sink(conn.wire + Total(outputData), conn.outgoingData - outputSize, [])
      else Sink(Total(outputData), conn.outgoingData - outputSize, conn.wire)
    }

    lemma Reached()
      requires Ok()
      ensures Reach() ==
              if Owner() then Sink(conn.wire, conn.outgoingData - outputSize, [])
              else Sink(Total(outputData), conn.outgoingData - outputSize, conn.wire)
      ensures Owner() ==> Total(outputData) == []
    {
      assert conn.wire + [] == conn.wire;
    }

    lemma OfValue()
      ensures Value().finished == finished && Value().framing == framing
    {
    }

    constructor (conn: Connection, s: State)
      requires IsFresh(s)
      ensures this.conn == conn && socket == null && Value() == s && outputData == [] && outputSize == 0
      ensures Ok()
    {
      this.conn := conn;
      socket := null;
      framing, header, headerSent := s.framing, s.header, s.headerSent;
      corked, buffer, chunkedLength := s.corked, s.buffer, 0;
      trailers, finished := s.trailers, s.finished;
      outputData, outputSize := [], 0;
    }

    /** `_flushOutput`: everything queued goes to the socket at once. */
    method FlushOutput()
      requires Owner() && Counted()
      modifies this`outputData, this`outputSize, conn`wire, conn`outgoingData
      ensures outputData == [] && Counted() && Reach() == old(Reach())
    {
      if |outputData| == 0 {
        return;
      }
      ghost var before := conn.wire;
      assert before + [] == before;
      var i := 0;
      while i < |outputData|
        invariant 0 <= i <= |outputData| && outputData == old(outputData) && outputSize == old(outputSize)
        invariant conn.wire == before + Total(outputData[..i]) && conn.outgoingData == old(conn.outgoingData)
      {
        assert outputData[..i + 1] == outputData[..i] + [outputData[i]];
        LengthsAppend(outputData[..i], outputData[i]);
        assert before + Total(outputData[..i]) + outputData[i].bytes ==
               before + (Total(outputData[..i]) + outputData[i].bytes);
        conn.wire := conn.wire + outputData[i].bytes;
        i := i + 1;
      }
      assert outputData[..i] == outputData;
      outputData := [];
      conn.outgoingData := conn.outgoingData - outputSize;
      outputSize := 0;
      assert conn.wire + [] == conn.wire;
    }

    /** `_writeRaw`: to the socket when it is this response's, into the queue otherwise. */
    method WriteRaw(data: Data)
      requires Counted()
      modifies this`outputData, this`outputSize, conn`wire, conn`outgoingData
      ensures Counted() && (Owner() ==> outputData == []) && Reach() == old(Reach()).Plus(data.bytes)
    {
      hide Counted, Reach, Sink.Plus;
      if socket != null && conn.httpMessage == this && conn.writable {
        SameSocket();
        if |outputData| > 0 {
          FlushOutput();
        }
        WriteThrough(data);
      } else {
        Enqueue(data);
      }
    }

    lemma SameSocket()
      requires Counted() && socket != null
      ensures socket == conn
    {
    }

    method WriteThrough(data: Data)
      requires Owner() && Counted() && outputData == []
      modifies conn`wire
      ensures Counted() && Reach() == old(Reach()).Plus(data.bytes)
    {
      assert conn.wire + [] == conn.wire;
      conn.wire := conn.wire + data.bytes;
      assert conn.wire + [] == conn.wire;
    }

    method Enqueue(data: Data)
      requires Counted() && !Owner()
      modifies this`outputData, this`outputSize, conn`outgoingData
      ensures Counted() && Reach() == old(Reach()).Plus(data.bytes)
    {
      hide Total, Lengths;
      LengthsAppend(outputData, data);
      outputData := outputData + [data];
      outputSize := outputSize + data.length;
      conn.outgoingData := conn.outgoingData + data.length;
    }

    /** `_send`: the header goes with the first data, in the same string or in front of it. */
    method SendData(data: Data, text: bool)
      requires Queue() && header.Some?
      modifies this`headerSent, this`outputData, this`outputSize, conn`wire, conn`outgoingData
      ensures Queue() && Value() == Send(old(Value()), data.bytes).0
      ensures Reach() == old(Reach()).Plus(Send(old(Value()), data.bytes).1)
    {
      hide Reach, Counted, Sink.Plus, Total, Lengths;
      var d := data;
      if !headerSent && header.Some? {
        var h := Text(header.value);
        if text {
          d := Data(h.bytes + data.bytes, h.length + data.length, h.size + data.size);
        } else {
          UnshiftOutput(h);
          old(Reach()).PlusPlus(h.bytes, data.bytes);
        }
        headerSent := true;
      }
      WriteRaw(d);
    }

    /** The header in front of an empty queue. */
    method UnshiftOutput(h: Data)
      requires Counted() && outputData == []
      modifies this`outputData, this`outputSize, conn`outgoingData
      ensures Counted() && Reach() == old(Reach()).Plus(h.bytes)
    {
      LengthsAppend([], h);
      assert [] + [h] == [h] && [] + h.bytes == h.bytes;
      assert conn.wire + [] == conn.wire;
      outputData := [h] + outputData;
      outputSize := outputSize + h.length;
      conn.outgoingData := conn.outgoingData + h.length;
    }

    /** The chunk header, the data and the line end, each sent on its own. */
    method SendChunk(data: Data, text: bool)
      requires Queue() && header.Some?
      modifies this`headerSent, this`outputData, this`outputSize, conn`wire, conn`outgoingData
      ensures Queue() && Value() == Send(old(Value()), Sized(data.size, data.bytes)).0
      ensures Reach() == old(Reach()).Plus(Send(old(Value()), Sized(data.size, data.bytes)).1)
    {
      hide Queue, Reach, Sink.Plus, Send, Sized, Hex;
      ghost var s, r, size := Value(), Reach(), Hex(data.size);
      SendData(Text(Hex(data.size)), true);
      ReachSends(r, s, size, CRLF);
      SendData(Text(CRLF), false);
      ReachSends(r, s, size + CRLF, data.bytes);
      SendData(data, text);
      ReachSends(r, s, size + CRLF + data.bytes, CRLF);
      SendData(Text(CRLF), false);
      ChunkOfParts(data.size, data.bytes);
    }

    /** The loop of `uncork` over the buffered data, after `sent` has gone. */
    method SendBuffer(ghost sent: Bytes, ghost s: State, ghost r: Sink)
      requires Queue() && header.Some? && Value() == Send(s, sent).0 && Reach() == r.Plus(Send(s, sent).1)
      modifies this`headerSent, this`outputData, this`outputSize, conn`wire, conn`outgoingData
      ensures Queue() && header.Some?
      ensures Value() == Send(s, sent + Total(buffer)).0 && Reach() == r.Plus(Send(s, sent + Total(buffer)).1)
    {
      hide Queue, Reach, Sink.Plus, Send, Total;
      var n := 0;
      SentSoFar(sent, buffer);
      while n < |buffer|
        invariant 0 <= n <= |buffer| && Queue()
        invariant Value() == Send(s, sent + Total(buffer[..n])).0
        invariant Reach() == r.Plus(Send(s, sent + Total(buffer[..n])).1)
      {
        ReachSends(r, s, sent + Total(buffer[..n]), buffer[n].bytes);
        SentNext(sent, buffer, n);
        SendData(buffer[n], false);
        n := n + 1;
      }
      assert buffer[..n] == buffer;
    }

    /** All that was written while corked, as one chunk. */
    method SendCorked()
      requires Queue() && header.Some? && chunkedLength == Sizes(buffer)
      modifies this`headerSent, this`outputData, this`outputSize, conn`wire, conn`outgoingData
      ensures Queue() && Value() == Send(old(Value()), Sized(Sizes(buffer), Total(buffer))).0
      ensures Reach() == old(Reach()).Plus(Send(old(Value()), Sized(Sizes(buffer), Total(buffer))).1)
    {
      hide Queue, Reach, Sink.Plus, Send, Sized, Hex, Total;
      ghost var s, r, size := Value(), Reach(), Hex(chunkedLength);
      SendData(Text(Hex(chunkedLength)), true);
      ReachSends(r, s, size, CRLF);
      SendData(Text(CRLF), false);
      SendBuffer(size + CRLF, s, r);
      ReachSends(r, s, size + CRLF + Total(buffer), CRLF);
      SendData(Text(CRLF), false);
      ChunkOfParts(chunkedLength, Total(buffer));
    }

    /** `uncork`. */
    method Uncork()
      requires Ok()
      modifies this`headerSent, this`corked, this`buffer, this`chunkedLength, this`outputData, this`outputSize
      modifies conn`wire, conn`outgoingData
      ensures Ok() && Value() == Uncorked(old(Value())).0 && Reach() == old(Reach()).Plus(Uncorked(old(Value())).1)
    {
      hide Queue, Reach, Sink.Plus, Send, Sized;
      corked := corked - 1;
      if corked != 0 || |buffer| == 0 {
        Reach().PlusNothing();
        return;
      }
      SendKeepsBuffer(Value(), Sized(Sizes(buffer), Total(buffer)));
      SendCorked();
      buffer := [];
      chunkedLength := 0;
    }

    /** `writeHead` and `_storeHeader`; nothing is stored when a trailer is announced without chunks. */
    method StoreHeader(h: Head)
      requires Ok() && header.None?
      modifies this`framing, this`header, this`headerSent
      ensures Ok() && Value() == HttpMessage.StoreHeader(old(Value()), h)
    {
      hide MatchHeaders, Unchunk, ConnectionLine, FramingLine, Total, Lengths;
      if Bodiless(h.status) {
        framing := framing.(hasBody := false);
      }
      framing := Unchunk(MatchHeaders(framing, h), h);
      var connection := ConnectionLine(framing, h);
      framing := connection.0;
      var line := FramingLine(framing, h);
      framing := line.0;
      if h.trailer && !framing.chunked {
        return;
      }
      header := Some(h.text + connection.1 + line.1 + CRLF);
      headerSent := false;
    }

    /** The header, if there is none yet: an `Expect` field makes it go at once. */
    method ImplicitHeader(h: Head)
      requires Ok()
      modifies this`framing, this`header, this`headerSent, this`outputData, this`outputSize
      modifies conn`wire, conn`outgoingData
      ensures Ok() && Value() == StartHead(old(Value()), h).0
      ensures Reach() == old(Reach()).Plus(StartHead(old(Value()), h).1)
    {
      hide Reach, Queue, Sink.Plus, HttpMessage.StoreHeader, Send, Total, Lengths;
      Reach().PlusNothing();
      if header.None? {
        StoreHeader(h);
        if header.Some? && h.expectField {
          SendData(Text([]), true);
        }
      }
    }

    /** `removeHeader` for the fields that decide the framing; refused once the header is stored. */
    method RemoveHeader(field: Removable)
      requires Ok()
      modifies this`framing
      ensures Ok() && Value() == Step(old(Value()), HttpMessage.RemoveHeader(field)).0
    {
      if header.None? {
        match field
        case ConnectionField => framing := framing.(removed := framing.removed.(connection := true));
        case ContentLengthField => framing := framing.(removed := framing.removed.(length := true));
        case CodingField => framing := framing.(removed := framing.removed.(coding := true));
      }
    }

    /** `flushHeaders`. */
    method FlushHeaders(h: Head)
      requires Ok()
      modifies this`framing, this`header, this`headerSent, this`outputData, this`outputSize
      modifies conn`wire, conn`outgoingData
      ensures Ok() && Value() == Step(old(Value()), HttpMessage.FlushHeaders(h)).0
      ensures Reach() == old(Reach()).Plus(Step(old(Value()), HttpMessage.FlushHeaders(h)).1)
    {
      hide Reach, Queue, Sink.Plus, StartHead, Send, Total;
      ghost var s, r := Value(), Reach();
      ImplicitHeader(h);
      if header.Some? {
        r.PlusPlus(StartHead(s, h).1, Send(StartHead(s, h).0, []).1);
        SendData(Text([]), true);
      }
    }

    /** `write_` once the header is there. */
    method WriteData(data: Data, text: bool)
      requires Ok() && header.Some?
      modifies this`headerSent, this`buffer, this`chunkedLength, this`outputData, this`outputSize
      modifies conn`wire, conn`outgoingData
      ensures Ok() && Value() == WriteBody(old(Value()), data).0
      ensures Reach() == old(Reach()).Plus(WriteBody(old(Value()), data).1)
    {
      hide Reach, Queue, Sink.Plus, Send, Sized, Sizes;
      if !framing.hasBody {
        Reach().PlusNothing();
      } else if framing.chunked && data.length != 0 {
        if corked != 0 && headerSent {
          SizesAppend(buffer, data);
          Reach().PlusNothing();
          buffer := buffer + [data];
          chunkedLength := chunkedLength + data.size;
        } else {
          SendChunk(data, text);
        }
      } else {
        SendData(data, text);
      }
    }

    /** `write`; nothing but an error once the response has ended. */
    method Write(data: Data, text: bool, h: Head)
      requires Ok()
      modifies this`framing, this`header, this`headerSent, this`buffer, this`chunkedLength
      modifies this`outputData, this`outputSize, conn`wire, conn`outgoingData
      ensures Ok() && Value() == Step(old(Value()), HttpMessage.Write(data, h)).0
      ensures Reach() == old(Reach()).Plus(Step(old(Value()), HttpMessage.Write(data, h)).1)
    {
      hide Ok, Reach, Queue, Sink.Plus, StartHead, WriteBody;
      ghost var s, r := Value(), Reach();
      if finished {
        r.PlusNothing();
        return;
      }
      ImplicitHeader(h);
      if header.Some? {
        r.PlusPlus(StartHead(s, h).1, WriteBody(StartHead(s, h).0, data).1);
        WriteData(data, text);
      }
    }

    /**
     * `end`; `pending` says whether the socket itself still has something to
     * write. What is written last and the header come first, then the zero
     * chunk, then what was still corked.
     */
    method End(last: Option<Data>, text: bool, h: Head, pending: bool)
      requires Ok()
      modifies this`framing, this`header, this`headerSent, this`corked, this`buffer, this`chunkedLength, this`finished
      modifies this`outputData, this`outputSize, conn`wire, conn`outgoingData
      ensures Ok() && Value() == Step(old(Value()), HttpMessage.End(last, h)).0
      ensures Reach() == old(Reach()).Plus(Step(old(Value()), HttpMessage.End(last, h)).1)
    {
      hide Ok, Reach, Queue, Sink.Plus, Step, StartHead, WriteBody, HttpMessage.Finish;
      ghost var s, r := Value(), Reach();
      if finished {
        EndTwice(s, last, h);
        r.PlusNothing();
        return;
      }
      EndUnfolds(s, last, h);
      WriteLast(last, text, h);
      if header.Some? {
        ghost var s2 := Value();
        r.PlusPlus(AtLast(s, last, h).1, HttpMessage.Finish(s2).1);
        Finish(last.Some?, pending);
      }
    }

    method WriteLast(last: Option<Data>, text: bool, h: Head)
      requires Ok()
      modifies this`framing, this`header, this`headerSent, this`buffer, this`chunkedLength
      modifies this`outputData, this`outputSize, conn`wire, conn`outgoingData
      ensures Ok() && Value() == AtLast(old(Value()), last, h).0
      ensures Reach() == old(Reach()).Plus(AtLast(old(Value()), last, h).1)
    {
      hide Reach, Queue, Sink.Plus, StartHead, WriteBody, Total;
      ghost var s, r := WithLength(Value(), last), Reach();
      if header.None? {
        framing := framing.(contentLength := Some(if last.Some? then last.value.size else 0));
      }
      ImplicitHeader(h);
      if header.Some? && last.Some? {
        r.PlusPlus(StartHead(s, h).1, WriteBody(StartHead(s, h).0, last.value).1);
        WriteData(last.value, text);
      }
    }

    method Finish(hasLast: bool, pending: bool)
      requires Ok() && header.Some?
      modifies this`headerSent, this`corked, this`buffer, this`chunkedLength, this`finished
      modifies this`outputData, this`outputSize, conn`wire, conn`outgoingData
      ensures Ok() && Value() == HttpMessage.Finish(old(Value())).0
      ensures Reach() == old(Reach()).Plus(HttpMessage.Finish(old(Value())).1)
    {
      hide Reach, Queue, Sink.Plus, Uncorked, LastFrame, Total;
      ghost var r := Reach();
      ghost var sent := if framing.hasBody && framing.chunked then Send(Value(), LastFrame(trailers)) else Send(Value(), []);
      if framing.hasBody && framing.chunked {
        SendData(Text(LastFrame(trailers)), true);
      } else if !headerSent || outputSize + chunkedLength > 0 || pending || hasLast {
        SendData(Text([]), true);
      } else {
        r.PlusNothing();
      }
      corked := 1;
      r.PlusPlus(sent.1, Uncorked(Value()).1);
      Uncork();
      finished := true;
    }

    method AddTrailers(lines: seq<Bytes>)
      requires Ok()
      modifies this`trailers
      ensures Ok() && Value() == Step(old(Value()), HttpMessage.AddTrailers(lines)).0
    {
      trailers := lines;
    }

    method CorkUp()
      requires Ok()
      modifies this`corked
      ensures Ok() && Value() == Step(old(Value()), Cork).0
    {
      corked := corked + 1;
    }

    /** One call of a handler. */
    method Do(op: Op, text: bool, pending: bool)
      requires Ok()
      modifies this`framing, this`header, this`headerSent, this`corked, this`buffer, this`chunkedLength, this`trailers
      modifies this`finished, this`outputData, this`outputSize, conn`wire, conn`outgoingData
      ensures Ok() && Value() == Step(old(Value()), op).0 && Reach() == old(Reach()).Plus(Step(old(Value()), op).1)
    {
      hide Ok, Reach, Sink.Plus, Send, StartHead, WriteBody, AtLast, HttpMessage.Finish, Uncorked, Value;
      Reach().PlusNothing();
      match op
      case RemoveHeader(field) => RemoveHeader(field);
      case WriteHead(h) => ImplicitHeader(h);
      case FlushHeaders(h) => FlushHeaders(h);
      case AddTrailers(lines) => AddTrailers(lines);
      case Write(data, h) => Write(data, text, h);
      case Cork => CorkUp();
      case Uncork => Uncork();
      case End(last, h) => End(last, text, h, pending);
    }

    /** `assignSocket` with `_flush`. */
    method AssignSocket()
      requires Kept() && conn.httpMessage == null && conn.writable
      modifies this`socket, this`outputData, this`outputSize, conn`httpMessage, conn`wire, conn`outgoingData
      ensures conn.httpMessage == this && socket == conn && Kept() && outputData == []
      ensures conn.wire == old(conn.wire) + old(Total(outputData))
      ensures conn.outgoingData - outputSize == old(conn.outgoingData) - old(outputSize)
    {
      conn.httpMessage := this;
      socket := conn;
      FlushOutput();
      assert Reach().stream == conn.wire + Total([]) == conn.wire;
    }

    method DetachSocket()
      requires Kept() && conn.httpMessage == this
      modifies this`socket, conn`httpMessage
      ensures conn.httpMessage == null && socket == null && Kept()
    {
      conn.httpMessage := null;
      socket := null;
    }
  }

  function Numbers(from: nat, n: nat): (s: seq<nat>)
    ensures |s| == n && forall k :: 0 <= k < n ==> s[k] == from + k
  {
    seq(n, k => from + k)
  }

  lemma NumbersStep(from: nat, n: nat)
    ensures Numbers(from, n) + [from + n] == Numbers(from, n + 1)
    ensures n > 0 ==> Numbers(from, n)[1..] == Numbers(from + 1, n - 1)
  {
  }

  function Sum(sizes: seq<int>): int {
    if sizes == [] then 0 else Sum(sizes[..|sizes| - 1]) + sizes[|sizes| - 1]
  }

  lemma {:induction false} SumUpdate(sizes: seq<int>, k: nat, v: int)
    requires k < |sizes|
    ensures Sum(sizes[k := v]) == Sum(sizes) + v - sizes[k]
  {
    var before := sizes[..|sizes| - 1];
    if k < |before| {
      assert sizes[k := v][..|sizes| - 1] == before[k := v];
      SumUpdate(before, k, v);
    } else {
      assert sizes[k := v][..|sizes| - 1] == before;
    }
  }

  lemma SumAppend(sizes: seq<int>, v: int)
    ensures Sum(sizes + [v]) == Sum(sizes) + v
  {
    assert (sizes + [v])[..|sizes|] == sizes;
  }

  ghost function QueueSizes(rs: seq<Response>): (sizes: seq<int>)
    reads rs
    ensures |sizes| == |rs| && forall i :: 0 <= i < |rs| ==> sizes[i] == rs[i].outputSize
  {
    if rs == [] then [] else QueueSizes(rs[..|rs| - 1]) + [rs[|rs| - 1].outputSize]
  }

  ghost function Slots(rs: seq<Response>): (slots: seq<Slot>)
    reads rs
    ensures |slots| == |rs|
    ensures forall i :: 0 <= i < |rs| ==> slots[i] == Slot(rs[i].Value(), Total(rs[i].outputData))
  {
    if rs == [] then [] else Slots(rs[..|rs| - 1]) + [Slot(rs[|rs| - 1].Value(), Total(rs[|rs| - 1].outputData))]
  }

  ghost predicate Distinct(rs: seq<Response>) {
    forall i, j :: 0 <= i < j < |rs| ==> rs[i] != rs[j]
  }

  class Connection {
    /** What has been written to the socket, and whether it can still be written to. */
    var wire: Bytes
    var writable: bool
    /** `socket._httpMessage`. */
    var httpMessage: Response?
    /** `state.incoming` (requests by number), `state.outgoing`, `state.outgoingData`. */
    var incoming: seq<nat>
    var outgoing: seq<Response>
    var outgoingData: int
    /** All responses in request order, and how many have finished. */
    ghost var all: seq<Response>
    ghost var done: nat

    /** The socket is with the response `owner` of `rs`, if that is an index, and with no other. */
    ghost predicate Sockets(rs: seq<Response>, owner: int)
      reads rs`socket
    {
      forall i :: 0 <= i < |rs| ==> rs[i].conn == this && rs[i].socket == (if i == owner then this else null)
    }

    ghost predicate AllKept(rs: seq<Response>)
      reads rs
    {
      forall i :: 0 <= i < |rs| ==> rs[i].Kept()
    }

    /** `incoming` are the requests from the owner's on, `outgoing` the responses behind the owner. */
    ghost predicate Lined()
      reads this`done, this`all, this`writable, this`incoming, this`outgoing
    {
      && done <= |all| && Distinct(all)
      && incoming == Numbers(done, |all| - done)
      && outgoing == all[if writable && done < |all| then done + 1 else done..]
    }

    /**
     * The socket belongs to the oldest unfinished response, until one marked
     * last has finished; the owner has nothing queued, and `outgoingData`
     * counts all that is queued.
     */
    ghost predicate Valid()
      reads this, all, httpMessage
    {
      && Lined() && Sockets(all, if writable then done else -1) && AllKept(all)
      && httpMessage == (if writable && done < |all| then all[done] else null)
      && (httpMessage != null ==> httpMessage.outputData == [])
      && outgoingData == Sum(QueueSizes(all))
    }

    ghost function Abs(): Conn
      reads this, all
    {
      Conn(wire, Slots(all), done, !writable)
    }

    constructor ()
      ensures Valid() && Abs() == START
    {
      wire, writable, httpMessage := [], true, null;
      incoming, outgoing, outgoingData := [], [], 0;
      all, done := [], 0;
      new;
      Empty();
    }

    lemma Empty()
      requires wire == [] && writable && httpMessage == null && incoming == [] && outgoing == []
      requires outgoingData == 0 && all == [] && done == 0
      ensures Valid() && Abs() == START
    {
    }

    lemma AtPlace(i: nat)
      requires Valid() && i < |all|
      ensures all[i].conn == this && Distinct(all) && all[i].Kept() && (all[i].Owner() <==> HttpPipeline.Owns(Abs(), i))
      ensures all[i].Owner() <==> httpMessage == all[i]
    {
    }

    /** A handler calls one of its response's methods. */
    method Call(r: Response, ghost i: nat, op: Op, text: bool, pending: bool)
      requires Valid() && i < |all| && r == all[i]
      modifies r, this`wire, this`outgoingData
      ensures Valid() && Abs() == StepConn(old(Abs()), HttpPipeline.Call(i, op))
    {
      hide *;
      Opened();
      Abstracted();
      AtPlace(i);
      Serve(r, i, op, text, pending);
      Closed();
      Called(old(Abs()), i, op);
    }

    /** The call itself: what it hands on goes to the wire or to the response's queue, and the count follows. */
    method Serve(r: Response, ghost i: nat, op: Op, text: bool, pending: bool)
      requires Distinct(all) && i < |all| && r == all[i] && r.conn == this && AllKept(all)
      requires (r.Owner() <==> httpMessage == r) && (httpMessage == r ==> r.outputData == [])
      requires outgoingData == Sum(QueueSizes(all))
      modifies this`wire, this`outgoingData, r`framing, r`header, r`headerSent, r`corked, r`buffer, r`chunkedLength
      modifies r`trailers, r`finished, r`outputData, r`outputSize
      ensures AllKept(all) && (httpMessage == r ==> r.outputData == []) && outgoingData == Sum(QueueSizes(all))
      ensures var (s, out) := Step(old(r.Value()), op);
              if r.Owner() then
                wire == old(wire) + out && Slots(all) == old(Slots(all))[i := old(Slots(all))[i].(state := s)]
              else
                wire == old(wire) && Slots(all) == old(Slots(all))[i := Slot(s, old(Slots(all))[i].queued + out)]
    {
      hide Response.Ok, Response.Kept, Step, Total, Slots, QueueSizes, Sum, Response.Reach, Response.Owner, Sink.Plus;
      r.OkIsKept();
      r.Reached();
      r.Do(op, text, pending);
      r.OkIsKept();
      r.Reached();
      assert QueueSizes(all) == old(QueueSizes(all))[i := r.outputSize];
      SumUpdate(old(QueueSizes(all)), i, r.outputSize);
      PlusFields(old(r.Reach()), Step(old(r.Value()), op).1);
    }

    lemma Called(c: Conn, i: nat, op: Op)
      requires i < |c.slots| && done == c.done && writable == !c.closing
      requires var (s, out) := Step(c.slots[i].state, op);
               if Owns(c, i) then wire == c.wire + out && Slots(all) == c.slots[i := c.slots[i].(state := s)]
               else wire == c.wire && Slots(all) == c.slots[i := Slot(s, c.slots[i].queued + out)]
      ensures Abs() == StepConn(c, HttpPipeline.Call(i, op))
    {
      hide Step;
    }

    lemma Grow(rs: seq<Response>, owner: int, r: Response)
      requires Sockets(rs, owner) && AllKept(rs) && Distinct(rs) && r !in rs
      requires r.conn == this && r.socket == (if |rs| == owner then this else null) && r.Kept()
      ensures Sockets(rs + [r], owner) && AllKept(rs + [r]) && Distinct(rs + [r])
      ensures Sum(QueueSizes(rs + [r])) == Sum(QueueSizes(rs)) + r.outputSize
      ensures Slots(rs + [r]) == Slots(rs) + [Slot(r.Value(), Total(r.outputData))]
    {
      hide Response.Kept, Response.Value, Total, Sum, QueueSizes, Slots, AllKept, Sockets, Distinct;
      GrowLists(rs, owner, r);
      assert QueueSizes(rs + [r]) == QueueSizes(rs) + [r.outputSize];
      SumAppend(QueueSizes(rs), r.outputSize);
    }

    lemma GrowLists(rs: seq<Response>, owner: int, r: Response)
      requires Sockets(rs, owner) && AllKept(rs) && Distinct(rs) && r !in rs
      requires r.conn == this && r.socket == (if |rs| == owner then this else null) && r.Kept()
      ensures Sockets(rs + [r], owner) && AllKept(rs + [r]) && Distinct(rs + [r])
    {
      hide Response.Kept;
    }

    lemma SliceGrows(rs: seq<Response>, r: Response, k: nat)
      requires k <= |rs|
      ensures (rs + [r])[k..] == rs[k..] + [r] && (rs + [r])[|rs| + 1..] == []
    {
    }

    lemma Opened()
      requires Valid()
      ensures Lined() && Sockets(all, if writable then done else -1) && AllKept(all) && Distinct(all)
      ensures httpMessage == (if writable && done < |all| then all[done] else null)
      ensures httpMessage != null ==> httpMessage.outputData == []
      ensures outgoingData == Sum(QueueSizes(all))
      ensures done <= |all| && incoming == Numbers(done, |all| - done) && |incoming| == |all| - done
      ensures outgoing == all[if writable && done < |all| then done + 1 else done..]
      ensures forall i :: 0 <= i < |all| ==> all[i].conn == this
    {
    }

    lemma Closed()
      requires done <= |all| && Sockets(all, if writable then done else -1) && AllKept(all) && Distinct(all)
      requires httpMessage == (if writable && done < |all| then all[done] else null)
      requires httpMessage != null ==> httpMessage.outputData == []
      requires outgoingData == Sum(QueueSizes(all)) && incoming == Numbers(done, |all| - done)
      requires outgoing == all[if writable && done < |all| then done + 1 else done..]
      ensures Valid()
    {
    }

    lemma Abstracted()
      ensures Abs() == Conn(wire, Slots(all), done, !writable)
    {
    }

    /** A new response at the end of the list keeps its order. */
    lemma Arrived(rs: seq<Response>, res: Response)
      requires done <= |rs| && all == rs + [res] && writable
      requires Sockets(all, done) && AllKept(all) && Distinct(all) && outgoingData == Sum(QueueSizes(all))
      requires httpMessage == (if done < |rs| then rs[done] else res) && httpMessage.outputData == []
      requires incoming == Numbers(done, |rs| - done) + [|rs|]
      requires outgoing == if done < |rs| then rs[done + 1..] + [res] else []
      ensures Valid()
    {
      hide *;
      NumbersStep(done, |rs| - done);
      SliceGrows(rs, res, if done < |rs| then done + 1 else done);
      Closed();
    }

    lemma Requested(c: Conn, s: State)
      requires !c.closing && IsFresh(s)
      requires wire == c.wire && writable && Slots(all) == c.slots + [Slot(s, [])] && done == c.done
      ensures Abs() == StepConn(c, Request(s))
    {
    }

    /** The end of `parserOnIncoming`: the new response gets the socket or a place in the queue. */
    method Join(res: Response)
      requires res.conn == this && res.Kept() && res.outputData == [] && writable
      requires httpMessage == null ==> outgoing == []
      modifies this`httpMessage, this`outgoing, this`wire, this`outgoingData, res
      ensures res.Kept() && res.outputData == [] && res.outputSize == old(res.outputSize) && res.Value() == old(res.Value())
      ensures wire == old(wire) && outgoingData == old(outgoingData)
      ensures if old(httpMessage) != null then
                res.socket == old(res.socket) && outgoing == old(outgoing) + [res] && httpMessage == old(httpMessage)
              else res.socket == this && httpMessage == res && outgoing == []
    {
      if httpMessage != null {
        outgoing := outgoing + [res];
      } else {
        res.AssignSocket();
      }
    }

    /** The new response is the last of all. */
    ghost method Enlist(res: Response)
      requires done <= |all| && writable && Sockets(all, done) && AllKept(all) && Distinct(all)
      requires res !in all && res.conn == this && res.Kept() && res.outputData == [] && res.outputSize == 0
      requires res.socket == (if done == |all| then this else null)
      requires httpMessage == (if done < |all| then all[done] else res) && httpMessage.outputData == []
      requires incoming == Numbers(done, |all| - done) + [|all|] && outgoingData == Sum(QueueSizes(all))
      requires outgoing == if done < |all| then all[done + 1..] + [res] else []
      modifies this`all
      ensures Valid() && all == old(all) + [res] && Slots(all) == old(Slots(all)) + [Slot(res.Value(), Total([]))]
    {
      hide *;
      ghost var rs := all;
      Grow(all, done, res);
      all := all + [res];
      Arrived(rs, res);
    }

    /** `parserOnIncoming`; requests are numbered as they arrive. */
    method OnIncoming(req: nat, s: State) returns (res: Response)
      requires Valid() && writable && req == |all| && IsFresh(s)
      modifies this
      ensures Valid() && Abs() == StepConn(old(Abs()), Request(s))
      ensures fresh(res) && all == old(all) + [res]
    {
      hide *;
      Opened();
      Abstracted();
      incoming := incoming + [req];
      res := new Response(this, s);
      res.OkIsKept();
      Join(res);
      Enlist(res);
      NothingQueued();
      Requested(old(Abs()), s);
    }

    /** `detachSocket` of the response that has the socket. */
    method Detach(res: Response, ghost k: nat)
      requires Distinct(all) && Sockets(all, k) && AllKept(all) && k < |all| && res == all[k] && httpMessage == res
      modifies this`httpMessage, res`socket
      ensures httpMessage == null && Sockets(all, -1) && AllKept(all)
      ensures QueueSizes(all) == old(QueueSizes(all)) && Slots(all) == old(Slots(all))
    {
      hide QueueSizes, Slots, Total, Response.Kept;
      res.DetachSocket();
    }

    /** `assignSocket` of the next response: what it has queued goes out at once. */
    method Assign(m: Response, ghost k: nat)
      requires Distinct(all) && Sockets(all, -1) && AllKept(all) && k < |all| && m == all[k] && httpMessage == null
      requires writable && outgoingData == Sum(QueueSizes(all))
      modifies this`httpMessage, this`wire, this`outgoingData, m
      ensures httpMessage == m && m.outputData == [] && Sockets(all, k) && AllKept(all)
      ensures outgoingData == Sum(QueueSizes(all)) && wire == old(wire) + old(Slots(all))[k].queued
      ensures Slots(all) == old(Slots(all))[k := old(Slots(all))[k].(queued := [])]
    {
      hide Total, Slots, QueueSizes, Sum, Response.Kept;
      NothingQueued();
      m.AssignSocket();
      assert QueueSizes(all) == old(QueueSizes(all))[k := m.outputSize];
      SumUpdate(old(QueueSizes(all)), k, m.outputSize);
    }

    lemma Finishes(c: Conn)
      requires !c.closing && c.done < |c.slots| && c.slots[c.done].state.finished
      requires done == c.done + 1 && writable == !c.slots[c.done].state.framing.last
      requires if writable && done < |c.slots| then
                 wire == c.wire + c.slots[done].queued && Slots(all) == c.slots[done := c.slots[done].(queued := [])]
               else wire == c.wire && Slots(all) == c.slots
      ensures Abs() == StepConn(c, Finished)
    {
    }

    /** The end of `resOnFinish`: the socket is closed, idle, or given to the next response. */
    method Advance(last: bool)
      requires 0 < done <= |all| && Sockets(all, -1) && AllKept(all) && Distinct(all)
      requires httpMessage == null && writable
      requires outgoingData == Sum(QueueSizes(all)) && incoming == Numbers(done, |all| - done) && outgoing == all[done..]
      modifies this`writable, this`httpMessage, this`outgoing, this`wire, this`outgoingData, all
      ensures Valid() && writable == !last
      ensures if writable && done < |all| then
                && wire == old(wire) + old(Slots(all))[done].queued
                && Slots(all) == old(Slots(all))[done := old(Slots(all))[done].(queued := [])]
              else wire == old(wire) && Slots(all) == old(Slots(all))
    {
      hide *;
      if last {
        writable := false;
      } else if |outgoing| != 0 {
        var m := outgoing[0];
        outgoing := outgoing[1..];
        Assign(m, done);
      } else {
        NobodyNext();
      }
      Closed();
    }

    /** The start of `resOnFinish`: the response gives up its place and its socket. */
    method Leave(res: Response)
      requires Valid() && res == httpMessage
      modifies this`incoming, this`httpMessage, this`done, res`socket
      ensures done == old(done) + 1 && done <= |all| && Sockets(all, -1) && AllKept(all) && Distinct(all)
      ensures httpMessage == null && writable && outgoingData == Sum(QueueSizes(all))
      ensures incoming == Numbers(done, |all| - done) && outgoing == all[done..] && Slots(all) == old(Slots(all))
    {
      hide *;
      Opened();
      NumbersStep(done, |incoming|);
      incoming := incoming[1..];
      Detach(res, done);
      done := done + 1;
    }

    lemma NobodyNext()
      requires done == |all| && Sockets(all, -1)
      ensures Sockets(all, done)
    {
    }

    /** `resOnFinish`. */
    method OnFinish(res: Response)
      requires Valid() && res == httpMessage && res.finished
      modifies this, all
      ensures Valid() && Abs() == StepConn(old(Abs()), Finished) && all == old(all)
    {
      hide *;
      Opened();
      Abstracted();
      res.OfValue();
      Leave(res);
      Advance(res.framing.last);
      Finishes(old(Abs()));
    }
  }
}
