/** Whole responses, byte by byte, and the calls that make the header go. */
module HttpSamples {
  import opened CodeUnits
  import opened Results
  import opened HttpChunked
  import opened HttpMessage
  import opened HttpFraming
  import opened HttpPipeline

  /** A new response to a GET request on a connection that is kept for five seconds. */
  const FIVE_SECONDS: State := Fresh(false, true, false, true, false, Hint(5000, 0, true))

  const TEXT: Bytes := Ascii("HTTP/1.1 200 OK\r\nContent-Type: text/plain\r\n")

  /** What `writeHead` has to go on for a status and a type. */
  const OK_HEAD: Head := Head(200, TEXT, NoConnection, NoCoding, None, false, false, false)

  const LETTER: Data := Data([0x78], 1, 1)

  const KEPT: Bytes := Ascii("Connection: keep-alive\r\n") + Ascii("Keep-Alive: timeout=5\r\n")

  lemma KeptLine()
    ensures KeepAliveLine(Hint(5000, 0, true)) == Ascii("Keep-Alive: timeout=5\r\n")
  {
    hide Ascii;
    assert Decimal(5) == "5";
    assert "Keep-Alive: timeout=" + "5" + "" + "\r\n" == "Keep-Alive: timeout=5\r\n";
  }

  /** With a limit on the requests of a connection. */
  lemma LimitedLine()
    ensures KeepAliveLine(Hint(5999, 100, true)) == Ascii("Keep-Alive: timeout=5, max=100\r\n")
    ensures KeepAliveLine(Hint(0, 100, true)) == [] && KeepAliveLine(Hint(5000, 100, false)) == []
  {
    hide Ascii, Decimal;
    SmallNumbers();
    var max := ", max=" + Decimal(100);
    assert max == ", max=100";
    assert "Keep-Alive: timeout=" + Decimal(5) + max + "\r\n" == "Keep-Alive: timeout=5, max=100\r\n";
  }

  lemma SmallNumbers()
    ensures Decimal(5) == "5" && Decimal(100) == "100"
  {
    assert Decimal(10) == Decimal(1) + "0" == "10";
  }

  lemma LengthOne()
    ensures LengthLine(1) == Ascii("Content-Length: 1\r\n")
  {
    hide Ascii;
    assert Decimal(1) == "1";
    assert "Content-Length: " + "1" + "\r\n" == "Content-Length: 1\r\n";
  }

  /** What is stored for that head: with the length of the data, if that is known, or with chunks announced. */
  lemma StoredFor(f: Framing)
    requires f == FIVE_SECONDS.framing || f == FIVE_SECONDS.framing.(contentLength := Some(1))
    ensures ChooseFraming(f, OK_HEAD) ==
            (f.(chunked := f.contentLength.None?),
             Some(TEXT + KEPT
                  + Ascii(if f.contentLength.Some? then "Content-Length: 1\r\n" else "Transfer-Encoding: chunked\r\n")
                  + CRLF))
  {
    hide Ascii, KeepAliveLine, LengthLine;
    KeptLine();
    LengthOne();
  }

  /** `res.end('x')` as the first and only call: the length is known. */
  lemma EndAtOnce()
    ensures Step(FIVE_SECONDS, End(Some(LETTER), OK_HEAD)).1 ==
            TEXT + KEPT + Ascii("Content-Length: 1\r\n") + CRLF + Ascii("x")
  {
    hide Ascii, ChooseFraming, WriteBody, Finish, StartHead, WithLength;
    var s, last, h := FIVE_SECONDS, Some(LETTER), OK_HEAD;
    EndUnfolds(s, last, h);
    var s1 := LengthHeader();
    EndPlain(s1, last);
    Letter();
    var (s2, out2) := WriteBody(s1, LETTER);
    assert [] + out2 + Finish(s2).1 == out2 + Finish(s2).1;
  }

  lemma LengthHeader() returns (s1: State)
    ensures StartHead(WithLength(FIVE_SECONDS, Some(LETTER)), OK_HEAD) == (s1, [])
    ensures s1.header == Some(TEXT + KEPT + Ascii("Content-Length: 1\r\n") + CRLF)
    ensures !s1.framing.chunked && s1.framing.hasBody && s1.buffer == [] && !s1.headerSent
  {
    hide Ascii, ChooseFraming;
    var s0 := WithLength(FIVE_SECONDS, Some(LETTER));
    StoredFor(s0.framing);
    s1 := StartHead(s0, OK_HEAD).0;
  }

  /** Sizes are written with the digits 0 to 9 and the small letters a to f. */
  lemma SizeDigit(d: nat)
    requires d < 16
    ensures HexDigit(d) == "0123456789abcdef"[d] as int
  {
    var i := [0, 1, 2, 3, 4, 5, 6, 7, 8, 9, 10, 11, 12, 13, 14, 15];
    assert i[d] == d;
  }

  lemma Letter()
    ensures Ascii("x") == LETTER.bytes && Sized(1, LETTER.bytes) == Ascii("1\r\nx\r\n")
  {
    assert Hex(1) == [0x31];
  }

  /** `res.writeHead(200, ...)` and then `res.end('x')`: it is sent in chunks. */
  lemma HeadThenEnd()
    ensures Run(FIVE_SECONDS, [WriteHead(OK_HEAD), End(Some(LETTER), OK_HEAD)]).1 ==
            TEXT + KEPT + Ascii("Transfer-Encoding: chunked\r\n") + CRLF + Ascii("1\r\nx\r\n") + Ascii("0\r\n\r\n")
  {
    hide Ascii, ChooseFraming, Finish, Sized, Run, Step;
    var s, h := FIVE_SECONDS, OK_HEAD;
    StoredFor(s.framing);
    RunFirst(s, WriteHead(h));
    RunLast(s, [WriteHead(h)], End(Some(LETTER), h));
    assert [WriteHead(h)] + [End(Some(LETTER), h)] == [WriteHead(h), End(Some(LETTER), h)];
    var s1 := HeadStored();
    EndUnfolds(s1, Some(LETTER), h);
    Letter();
    var s2 := WriteBody(s1, LETTER).0;
    LastOfAll(s2);
    var chunk := Sized(1, LETTER.bytes);
    assert [] + ([] + (s1.header.value + chunk) + Finish(s2).1) == s1.header.value + chunk + Finish(s2).1;
  }

  lemma HeadStored() returns (s1: State)
    ensures Step(FIVE_SECONDS, WriteHead(OK_HEAD)) == (s1, []) && !s1.headerSent && !s1.finished && s1.corked == 0
    ensures s1.header.Some? && s1.header == ChooseFraming(FIVE_SECONDS.framing, OK_HEAD).1
    ensures InChunks(s1) && s1.buffer == [] && s1.trailers == []
  {
    hide Ascii, ChooseFraming;
    StoredFor(FIVE_SECONDS.framing);
    s1 := Step(FIVE_SECONDS, WriteHead(OK_HEAD)).0;
  }

  lemma LastOfAll(s: State)
    requires InChunks(s) && s.headerSent && s.buffer == [] && s.trailers == []
    ensures Finish(s).1 == Ascii("0\r\n\r\n")
  {
    hide Sized;
    assert LastFrame([]) + [] == Ascii("0\r\n\r\n");
  }

  /**
   * The header goes with the first call that flushes it, brings an `Expect`
   * field, or writes what is not held back, and in front of everything else.
   */
  lemma {:induction false} HeaderGoes(s: State, op: Op)
    requires !s.headerSent && s.header.None? && !s.finished && !op.End?
    ensures var (s', out) := Step(s, op);
            && (s'.headerSent ==> s'.header.Some? && s'.header.value <= out)
            && (s'.header.Some? && op.FlushHeaders? ==> s'.headerSent && out == s'.header.value)
            && (s'.header.Some? && op.WriteHead? ==> (s'.headerSent <==> op.head.expectField))
            && (s'.header.Some? && op.Write? && s'.framing.hasBody ==> s'.headerSent)
  {
    hide StartHead, WriteBody, Send, Uncorked;
    match op
    case WriteHead(h) => StartGoes(s, h);
    case FlushHeaders(h) =>
      StartGoes(s, h);
      SendGoes(StartHead(s, h).0, []);
    case Write(data, h) =>
      StartGoes(s, h);
      if StartHead(s, h).0.header.Some? {
        WriteGoes(StartHead(s, h).0, data);
      }
    case Uncork => UncorkGoes(s);
    case _ =>
  }

  lemma StartGoes(s: State, h: Head)
    requires !s.headerSent && s.header.None? && !s.finished
    ensures var (s', out) := StartHead(s, h);
            && !s'.finished && (s'.headerSent <==> s'.header.Some? && h.expectField)
            && out == if s'.headerSent then s'.header.value else []
  {
    hide ChooseFraming;
  }

  lemma SendGoes(s: State, data: Bytes)
    ensures s.header.Some? ==> Send(s, data).0.headerSent && Send(s, data).0.header == s.header
    ensures s.header.Some? ==> Send(s, data).1 == (if s.headerSent then [] else s.header.value) + data
    ensures Send(s, data).0.framing == s.framing
  {
    assert [] + data == data;
  }

  lemma WriteGoes(s: State, data: Data)
    requires s.header.Some?
    ensures var (s', out) := WriteBody(s, data);
            && s'.header == s.header && s'.framing == s.framing && (s.headerSent ==> s'.headerSent)
            && (s.framing.hasBody ==> s'.headerSent)
            && (s'.headerSent && !s.headerSent ==> s.header.value <= out)
  {
    hide Send, Sized;
    SendGoes(s, data.bytes);
    SendGoes(s, Sized(data.size, data.bytes));
  }

  lemma UncorkGoes(s: State)
    requires !s.headerSent && s.header.None?
    ensures !Uncorked(s).0.headerSent && Uncorked(s).0.header.None?
  {
    hide Sized, Total, Sizes;
  }
}
