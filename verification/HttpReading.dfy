/**
 * What a client makes of a server connection: it reads header lines up to an
 * empty one, then a body in chunks with its trailers, and starts over. The
 * responses of a finished run come out as their handlers wrote them.
 */
module HttpReading {
  import opened CodeUnits
  import opened Results
  import opened HttpChunked
  import opened HttpMessage
  import opened HttpFraming
  import opened HttpPipeline
  import opened HttpSized

  // ------------------------------------------- a reader does not look past the end

  lemma {:induction false} ReadSizeFurther(s: Bytes, acc: nat, tail: Bytes)
    requires ReadSize(s, acc).1 != []
    ensures ReadSize(s + tail, acc) == (ReadSize(s, acc).0, ReadSize(s, acc).1 + tail)
  {
    hide HexValue, IsHex;
    if IsHex(s[0]) {
      assert (s + tail)[1..] == s[1..] + tail;
      ReadSizeFurther(s[1..], acc * 16 + HexValue(s[0]), tail);
    }
  }

  lemma {:induction false} ReadLineFurther(s: Bytes, tail: Bytes)
    requires ReadLine(s).Some?
    ensures ReadLine(s + tail) == Some((ReadLine(s).value.0, ReadLine(s).value.1 + tail))
  {
    if StartsLine(s) {
      assert (s + tail)[2..] == s[2..] + tail;
    } else {
      assert (s + tail)[1..] == s[1..] + tail;
      ReadLineFurther(s[1..], tail);
    }
  }

  lemma {:induction false} ReadLinesFurther(s: Bytes, tail: Bytes)
    requires ReadLines(s).Some?
    ensures ReadLines(s + tail) == Some((ReadLines(s).value.0, ReadLines(s).value.1 + tail))
    decreases |s|
  {
    hide ReadLine;
    ReadLineFurther(s, tail);
    var line := ReadLine(s).value;
    if line.0 != [] {
      ReadLinesFurther(line.1, tail);
    }
  }

  /** A size was read, and the rest of the message after it. */
  ghost predicate HasSize(s: Bytes, size: nat, rest: Bytes) {
    s != [] && IsHex(s[0]) && ReadSize(s[1..], HexValue(s[0])) == (size, rest)
  }

  lemma ReadLastOf(s: Bytes, rest: Bytes)
    requires HasSize(s, 0, rest) && StartsLine(rest)
    ensures var lines := ReadLines(rest[2..]);
            Read(s) == if lines.None? then None else Some(Message([], lines.value.0, lines.value.1))
  {
    hide ReadSize, ReadLines, HexValue, IsHex, StartsLine;
  }

  lemma ReadSome(s: Bytes) returns (size: nat, rest: Bytes)
    requires Read(s).Some?
    ensures HasSize(s, size, rest) && StartsLine(rest) && |rest| < |s|
    ensures size > 0 ==>
              && |rest| >= 2 + size + 2 && StartsLine(rest[2 + size..]) && Read(rest[2 + size + 2..]).Some?
              && Read(s) == AddBody(rest[2..2 + size], Read(rest[2 + size + 2..]))
  {
    hide ReadLines, HexValue, IsHex;
    var p := ReadSize(s[1..], HexValue(s[0]));
    size, rest := p.0, p.1;
  }

  lemma SizeFurther(s: Bytes, size: nat, rest: Bytes, tail: Bytes)
    requires HasSize(s, size, rest) && rest != []
    ensures HasSize(s + tail, size, rest + tail)
  {
    hide ReadSize, HexValue, IsHex;
    ReadSizeFurther(s[1..], HexValue(s[0]), tail);
    assert (s + tail)[1..] == s[1..] + tail && (s + tail)[0] == s[0];
  }

  /** What follows a message changes nothing about it. */
  lemma {:induction false} ReadFurther(s: Bytes, tail: Bytes)
    requires Read(s).Some?
    ensures Read(s + tail) == Some(Read(s).value.(rest := Read(s).value.rest + tail))
    decreases |s|
  {
    hide Read, ReadLines, HasSize, StartsLine;
    var size, rest := ReadSome(s);
    assert rest != [] by { StartsSomething(rest); }
    SizeFurther(s, size, rest, tail);
    if size == 0 {
      LastFurther(s, rest, tail);
    } else {
      var after := rest[2 + size + 2..];
      ReadFurther(after, tail);
      FurtherParts(rest, size, tail);
      ChunkOfSize(s + tail, size, rest + tail);
    }
  }

  lemma StartsSomething(rest: Bytes)
    requires StartsLine(rest)
    ensures |rest| >= 2
  {
  }

  lemma LastFurther(s: Bytes, rest: Bytes, tail: Bytes)
    requires HasSize(s, 0, rest) && HasSize(s + tail, 0, rest + tail) && StartsLine(rest) && Read(s).Some?
    ensures Read(s + tail) == Some(Read(s).value.(rest := Read(s).value.rest + tail))
  {
    hide Read, ReadLines, HasSize;
    ReadLastOf(s, rest);
    ReadLinesFurther(rest[2..], tail);
    assert (rest + tail)[2..] == rest[2..] + tail && StartsLine(rest + tail);
    ReadLastOf(s + tail, rest + tail);
  }

  lemma ChunkOfSize(s: Bytes, size: nat, rest: Bytes)
    requires HasSize(s, size, rest) && 0 < size <= |rest| - 2 && StartsLine(rest) && StartsLine(rest[2 + size..])
    ensures |rest| >= 2 + size + 2
    ensures Read(s) == AddBody(rest[2..2 + size], Read(rest[2 + size + 2..]))
  {
    hide ReadSize, HexValue, IsHex, Read;
    ReadChunk(s, size, rest);
  }

  lemma FurtherParts(rest: Bytes, size: nat, tail: Bytes)
    requires |rest| >= 2 + size + 2 && StartsLine(rest) && StartsLine(rest[2 + size..])
    ensures StartsLine(rest + tail) && StartsLine((rest + tail)[2 + size..])
    ensures (rest + tail)[2..2 + size] == rest[2..2 + size]
    ensures (rest + tail)[2 + size + 2..] == rest[2 + size + 2..] + tail
  {
  }

  // -------------------------------------------------------------------- responses

  datatype Answer = Answer(head: seq<Bytes>, body: Bytes, trailers: seq<Bytes>)

  /** One response in chunks, and what follows it. */
  function ReadAnswer(s: Bytes): (r: Option<(Answer, Bytes)>)
    ensures r.Some? ==> |r.value.1| < |s|
  {
    var head := ReadLines(s);
    if head.None? then None
    else
      var m := Read(head.value.1);
      if m.None? then None
      else
        ReadShorter(head.value.1);
        Some((Answer(head.value.0, m.value.body, m.value.trailers), m.value.rest))
  }

  lemma {:induction false} ReadShorter(s: Bytes)
    ensures Read(s).Some? ==> |Read(s).value.rest| < |s|
    decreases |s|
  {
    hide ReadSize, ReadLines, HexValue, IsHex;
    if s != [] && IsHex(s[0]) {
      var (size, rest) := ReadSize(s[1..], HexValue(s[0]));
      assert |rest| <= |s[1..]|;
      if size > 0 && |rest| >= 2 + size + 2 {
        ReadShorter(rest[2 + size + 2..]);
      }
    }
  }

  function ReadAnswers(s: Bytes): Option<seq<Answer>>
    decreases |s|
  {
    if s == [] then Some([])
    else
      var first := ReadAnswer(s);
      if first.None? then None else AddAnswer(first.value.0, ReadAnswers(first.value.1))
  }

  function AddAnswer(a: Answer, r: Option<seq<Answer>>): Option<seq<Answer>> {
    if r.None? then None else Some([a] + r.value)
  }

  // ---------------------------------------------------------------- header lines

  /** Lines, then an empty one, and nothing more. */
  predicate WholeHead(b: Bytes) {
    ReadLines(b).Some? && ReadLines(b).value.1 == []
  }

  function LinesOf(b: Bytes): seq<Bytes> {
    if ReadLines(b).Some? then ReadLines(b).value.0 else []
  }

  lemma {:induction false} ReadLineCut(s: Bytes, tail: Bytes)
    requires ReadLine(s).Some?
    ensures var (line, rest) := ReadLine(s).value;
            s == line + CRLF + rest && ReadLine(line + CRLF + tail) == Some((line, tail))
  {
    if StartsLine(s) {
      assert s == CRLF + s[2..];
      assert (CRLF + tail)[2..] == tail && [] + CRLF + tail == CRLF + tail;
    } else {
      ReadLineCut(s[1..], tail);
      var (line, rest) := ReadLine(s[1..]).value;
      assert s == [s[0]] + s[1..];
      assert [s[0]] + line + CRLF + tail == [s[0]] + (line + CRLF + tail);
      assert [s[0]] + line + CRLF + rest == [s[0]] + (line + CRLF + rest);
      NoLineStart(s, line, rest, tail);
    }
  }

  lemma NoLineStart(s: Bytes, line: Bytes, rest: Bytes, tail: Bytes)
    requires s != [] && s[1..] == line + CRLF + rest && !StartsLine(s)
    ensures !StartsLine([s[0]] + (line + CRLF + tail)) && ([s[0]] + (line + CRLF + tail))[1..] == line + CRLF + tail
  {
    assert s[1] == (line + CRLF)[0];
  }

  /** Lines that something else than their empty line follows. */
  lemma {:induction false} LinesThen(text: Bytes, tail: Bytes)
    requires WholeHead(text + CRLF) && ReadLines(tail).Some?
    ensures ReadLines(text + tail) ==
            Some((ReadLines(text + CRLF).value.0 + ReadLines(tail).value.0, ReadLines(tail).value.1))
    decreases |text|
  {
    var s := text + CRLF;
    var (line, rest) := ReadLine(s).value;
    hide ReadLine, ReadLines;
    if text == [] {
      assert s == CRLF && text + tail == tail;
      NoLines();
      assert [] + ReadLines(tail).value.0 == ReadLines(tail).value.0;
    } else {
      var more := LineOf(text);
      ReadLineCut(s, more + tail);
      assert text + tail == line + CRLF + (more + tail);
      LinesThen(more, tail);
      LinesStep(s);
      LinesStep(text + tail);
      assert [line] + (ReadLines(more + CRLF).value.0 + ReadLines(tail).value.0) ==
             [line] + ReadLines(more + CRLF).value.0 + ReadLines(tail).value.0;
    }
  }

  lemma NoLines()
    ensures ReadLine(CRLF) == Some(([], [])) && ReadLines(CRLF) == Some(([], []))
  {
    assert CRLF[2..] == [];
  }

  lemma LinesStep(s: Bytes)
    requires ReadLine(s).Some? && ReadLine(s).value.0 != [] && ReadLines(ReadLine(s).value.1).Some?
    ensures var (line, rest) := ReadLine(s).value;
            ReadLines(s) == Some(([line] + ReadLines(rest).value.0, ReadLines(rest).value.1))
  {
    hide ReadLine;
  }

  /** The first of several lines taken off. */
  lemma LineOf(text: Bytes) returns (more: Bytes)
    requires WholeHead(text + CRLF) && text != []
    ensures var (line, rest) := ReadLine(text + CRLF).value;
            line != [] && rest == more + CRLF && text == line + CRLF + more && |more| < |text| && WholeHead(more + CRLF)
  {
    hide ReadLine;
    var s := text + CRLF;
    var (line, rest) := ReadLine(s).value;
    ReadLineCut(s, []);
    if line == [] {
      assert false;
    }
    assert ReadLines(rest).Some?;
    ReadLineCutSome(rest);
    more := rest[..|rest| - 2];
    assert rest[|rest| - 2..] == s[|s| - 2..] == CRLF;
    assert s == (line + CRLF + more) + CRLF;
    assert s[..|text|] == text;
  }

  lemma ReadLineCutSome(s: Bytes)
    requires ReadLine(s).Some?
    ensures |s| >= 2
  {
    ReadLineCut(s, []);
  }

  lemma AsciiLine(t: string)
    requires t != "" && '\r' !in t && '\n' !in t
    ensures Ascii(t + "\r\n") == Ascii(t) + CRLF && IsLine(Ascii(t))
  {
    assert forall k :: 0 <= k < |t| ==> t[k] in t;
    var s := t + "\r\n";
    assert s[|t|] == '\r' && s[|t| + 1] == '\n';
  }

  lemma {:induction false} DecimalPlain(n: nat)
    ensures '\r' !in Decimal(n) && '\n' !in Decimal(n)
    decreases n
  {
    if n >= 10 { DecimalPlain(n / 10); }
  }

  /** The lines that are added, one by one. */
  lemma AddedLines(f: Framing, h: Head) returns (lines: seq<Bytes>)
    ensures forall i :: 0 <= i < |lines| ==> IsLine(lines[i])
    ensures var (_, connection, framing) := Chosen(f, h); connection + framing == Lines(lines)
  {
    hide MatchHeaders, ConnectionLine, FramingLine, Ascii, Decimal, IsLine;
    var f1 := Unchunk(MatchHeaders(if Bodiless(h.status) then f.(hasBody := false) else f, h), h);
    var a := ConnectionAdded(f1, h);
    var b := FramingAdded(ConnectionLine(f1, h).0, h);
    lines := a + b;
    LinesAppend(a, b);
  }

  lemma {:induction false} LinesAppend(a: seq<Bytes>, b: seq<Bytes>)
    ensures Lines(a + b) == Lines(a) + Lines(b)
    decreases |a|
  {
    if a == [] {
      assert a + b == b && Lines(a) + Lines(b) == Lines(b);
    } else {
      assert (a + b)[1..] == a[1..] + b;
      LinesAppend(a[1..], b);
    }
  }

  lemma OneLine(line: Bytes)
    ensures Lines([line]) == line + CRLF && Lines([]) == []
  {
    assert [line][1..] == [] && line + CRLF + [] == line + CRLF;
  }

  lemma AsciiLines(t: string)
    requires t != "" && '\r' !in t && '\n' !in t
    ensures Lines([Ascii(t)]) == Ascii(t + "\r\n") && IsLine(Ascii(t)) && Lines([]) == []
  {
    hide Ascii, IsLine;
    AsciiLine(t);
    OneLine(Ascii(t));
  }

  lemma ConnectionAdded(f: Framing, h: Head) returns (lines: seq<Bytes>)
    ensures forall i :: 0 <= i < |lines| ==> IsLine(lines[i])
    ensures ConnectionLine(f, h).1 == Lines(lines)
  {
    hide Ascii, IsLine, Lines, KeepAliveLine;
    var close, keep := "Connection: close", "Connection: keep-alive";
    AsciiLines(close);
    AsciiLines(keep);
    assert close + "\r\n" == "Connection: close\r\n" && keep + "\r\n" == "Connection: keep-alive\r\n";
    var line := ConnectionLine(f, h).1;
    if line == [] {
      lines := [];
    } else if line == Ascii("Connection: close\r\n") {
      lines := [Ascii(close)];
    } else {
      var hint := HintAdded(f.hint);
      lines := [Ascii(keep)] + hint;
      LinesAppend([Ascii(keep)], hint);
    }
  }

  lemma HintAdded(hint: Hint) returns (lines: seq<Bytes>)
    ensures forall i :: 0 <= i < |lines| ==> IsLine(lines[i])
    ensures KeepAliveLine(hint) == Lines(lines)
  {
    hide Ascii, IsLine, Decimal;
    if KeepAliveLine(hint) == [] {
      lines := [];
    } else {
      DecimalPlain(hint.timeout / 1000);
      DecimalPlain(hint.maxRequests);
      var max := if 0 < hint.maxRequests % 0x1_0000_0000 < 0x8000_0000 then ", max=" + Decimal(hint.maxRequests) else "";
      var text := "Keep-Alive: timeout=" + Decimal(hint.timeout / 1000) + max;
      AsciiLines(text);
      assert "Keep-Alive: timeout=" + Decimal(hint.timeout / 1000) + max + "\r\n" == text + "\r\n";
      lines := [Ascii(text)];
    }
  }

  lemma FramingAdded(f: Framing, h: Head) returns (lines: seq<Bytes>)
    ensures forall i :: 0 <= i < |lines| ==> IsLine(lines[i])
    ensures FramingLine(f, h).1 == Lines(lines)
  {
    hide Ascii, IsLine, Decimal, LengthLine;
    var line, chunks := FramingLine(f, h).1, "Transfer-Encoding: chunked";
    AsciiLines(chunks);
    assert chunks + "\r\n" == "Transfer-Encoding: chunked\r\n";
    if line == [] {
      lines := [];
    } else if line == Ascii("Transfer-Encoding: chunked\r\n") {
      lines := [Ascii(chunks)];
    } else {
      lines := LengthAdded(f.contentLength.value);
    }
  }

  lemma LengthAdded(length: nat) returns (lines: seq<Bytes>)
    ensures forall i :: 0 <= i < |lines| ==> IsLine(lines[i])
    ensures LengthLine(length) == Lines(lines)
  {
    hide Ascii, IsLine, Decimal;
    DecimalPlain(length);
    var text := "Content-Length: " + Decimal(length);
    AsciiLines(text);
    lines := [Ascii(text)];
  }

  /** The header text that a caller brings along is lines. */
  predicate HeadText(h: Head) {
    WholeHead(h.text + CRLF)
  }

  /**
   * A header that is stored begins with the caller's text; read as lines it is
   * the caller's lines, then those that are added.
   */
  lemma StoredLines(f: Framing, h: Head)
    requires HeadText(h) && ChooseFraming(f, h).1.Some?
    ensures var header := ChooseFraming(f, h).1.value;
            && h.text <= header && WholeHead(header) && LinesOf(header) == HeadLines(f, h)
  {
    hide Chosen, ReadLines, IsLine, Lines;
    var lines := AddedLines(f, h);
    var (_, connection, framing) := Chosen(f, h);
    ReadLinesOf(lines, []);
    assert Lines(lines) + CRLF + [] == Lines(lines) + CRLF;
    LinesThen(h.text, Lines(lines) + CRLF);
    assert h.text + (Lines(lines) + CRLF) == h.text + connection + framing + CRLF;
  }

  /** The lines of the caller's text, then the lines that are added. */
  function HeadLines(f: Framing, h: Head): seq<Bytes> {
    var (_, connection, framing) := Chosen(f, h);
    LinesOf(h.text + CRLF) + LinesOf(connection + framing + CRLF)
  }

  // ------------------------------------------------------- the header of a message

  /** The head that a call brings along, if it brings one. */
  function HeadOf(op: Op): Option<Head> {
    match op
    case WriteHead(h) => Some(h)
    case FlushHeaders(h) => Some(h)
    case Write(_, h) => Some(h)
    case End(_, h) => Some(h)
    case _ => None
  }

  predicate HeadsText(op: Op) {
    HeadOf(op).Some? ==> HeadText(HeadOf(op).value)
  }

  /** What the framing of a call's header is chosen from. */
  function FramingFor(s: State, op: Op): Framing {
    if op.End? then WithLength(s, op.last).framing else s.framing
  }

  /** The first call after which a header is stored; past the end when there is none. */
  function StoredAt(s: State, ops: seq<Op>): (k: nat)
    ensures k <= |ops|
    decreases |ops|
  {
    if ops == [] then 0
    else
      var before := ops[..|ops| - 1];
      var k := StoredAt(s, before);
      if k < |before| || Run(s, ops).0.header.Some? then k else |ops|
  }

  lemma BodyKeepsHeader(s: State, data: Data)
    ensures WriteBody(s, data).0.header == s.header && WriteBody(s, data).0.framing == s.framing
    ensures Uncorked(s).0.header == s.header && Uncorked(s).0.framing == s.framing
    ensures Send(s, []).0.header == s.header && Send(s, []).0.framing == s.framing
  {
    hide Sized, Total, Sizes;
  }

  lemma StartStores(s: State, h: Head)
    ensures var s' := StartHead(s, h).0;
            if s.header.Some? then s' == s
            else s'.header == ChooseFraming(s.framing, h).1 && s'.framing == ChooseFraming(s.framing, h).0
  {
    hide ChooseFraming;
  }

  /** A call leaves a stored header and its framing alone, and stores no other than that of the head it brings. */
  lemma {:induction false} StepStores(s: State, op: Op)
    ensures var s' := Step(s, op).0;
            && (s.header.Some? ==> s'.header == s.header && s'.framing == s.framing)
            && (s.header.None? && s'.header.Some? ==>
                  HeadOf(op).Some? && s'.header == ChooseFraming(FramingFor(s, op), HeadOf(op).value).1)
            && (op.Write? && !s.finished ==> (InChunks(s') <==> InChunks(StartHead(s, op.head).0)))
  {
    hide StartHead, WriteBody, Uncorked, Send, ChooseFraming, Finish;
    var nothing := Data([], 0, 0);
    match op
    case WriteHead(h) => StartStores(s, h);
    case FlushHeaders(h) =>
      StartStores(s, h);
      BodyKeepsHeader(StartHead(s, h).0, nothing);
    case Write(data, h) =>
      StartStores(s, h);
      BodyKeepsHeader(StartHead(s, h).0, data);
    case Uncork => BodyKeepsHeader(s, nothing);
    case End(last, h) => EndStores(s, last, h);
    case _ =>
  }

  lemma {:induction false} EndStores(s: State, last: Option<Data>, h: Head)
    ensures var s' := Step(s, End(last, h)).0;
            && (s.header.Some? ==> s'.header == s.header && s'.framing == s.framing)
            && (s.header.None? && s'.header.Some? ==> s'.header == ChooseFraming(WithLength(s, last).framing, h).1)
  {
    hide StartHead, WriteBody, Finish, Step, ChooseFraming;
    if s.finished {
      FinishedStays(s, End(last, h));
    } else {
      EndUnfolds(s, last, h);
      StartStores(WithLength(s, last), h);
      if last.Some? {
        BodyKeepsHeader(StartHead(WithLength(s, last), h).0, last.value);
      }
      var s2 := AtLast(s, last, h).0;
      if s2.header.Some? {
        FinishDone(s2);
      }
    }
  }

  lemma FinishedStays(s: State, op: Op)
    requires s.finished && op.End?
    ensures Step(s, op) == (s, [])
  {
  }

  lemma RunStep(s: State, ops: seq<Op>)
    requires ops != []
    ensures Run(s, ops).0 == Step(Run(s, ops[..|ops| - 1]).0, ops[|ops| - 1]).0
  {
    hide Step;
  }

  /** The stored header is that of the head which that call brought. */
  lemma {:induction false} RunStores(s: State, ops: seq<Op>)
    requires s.header.None?
    ensures var k, s' := StoredAt(s, ops), Run(s, ops).0;
            && (s'.header.Some? <==> k < |ops|)
            && (k < |ops| ==>
                  && Run(s, ops[..k]).0.header.None? && HeadOf(ops[k]).Some?
                  && s'.header == ChooseFraming(FramingFor(Run(s, ops[..k]).0, ops[k]), HeadOf(ops[k]).value).1)
    decreases |ops|
  {
    hide Step, ChooseFraming, Run, FramingFor, HeadOf;
    if ops == [] {
      RunNothing(s);
    } else {
      var before := ops[..|ops| - 1];
      RunStores(s, before);
      RunStep(s, ops);
      StepStores(Run(s, before).0, ops[|ops| - 1]);
      var k := StoredAt(s, before);
      assert k <= |before| && before[..k] == ops[..k];
    }
  }

  lemma RunNothing(s: State)
    ensures Run(s, []) == (s, [])
  {
  }

  // --------------------------------------------------------- the data of a message

  /** The data that a call is given. */
  function DataGiven(op: Op): Bytes {
    match op
    case Write(data, _) => data.bytes
    case End(last, _) => if last.Some? then last.value.bytes else []
    case _ => []
  }

  /** The data that calls are given, in their order. */
  function DataOf(ops: seq<Op>): Bytes {
    if ops == [] then [] else DataOf(ops[..|ops| - 1]) + DataGiven(ops[|ops| - 1])
  }

  /** The trailers given last. */
  function LastTrailers(ops: seq<Op>): seq<Bytes> {
    if ops == [] then []
    else if ops[|ops| - 1].AddTrailers? then ops[|ops| - 1].lines
    else LastTrailers(ops[..|ops| - 1])
  }

  lemma DataMore(ops: seq<Op>, k: nat)
    requires k < |ops|
    ensures DataOf(ops[k..]) == DataOf(ops[..|ops| - 1][k..]) + DataGiven(ops[|ops| - 1])
  {
    var part := ops[k..];
    assert part[..|part| - 1] == ops[..|ops| - 1][k..];
  }

  /** A message in chunks takes all data from the call on that stores its header. */
  lemma {:induction false} WrittenData(s: State, ops: seq<Op>)
    requires s.header.None? && !s.finished && forall i :: 0 <= i < |ops| ==> !ops[i].End?
    ensures !Run(s, ops).0.finished
    ensures Written(s, ops) == if InChunks(Run(s, ops).0) then DataOf(ops[StoredAt(s, ops)..]) else []
    decreases |ops|
  {
    hide Step, Run, StartHead, DataOf;
    if ops == [] {
      RunNothing(s);
      NoData();
    } else {
      var before, op := ops[..|ops| - 1], ops[|ops| - 1];
      var s1 := Run(s, before).0;
      WrittenData(s, before);
      RunStores(s, before);
      RunStores(s, ops);
      RunStep(s, ops);
      StepUnfinished(s1, op);
      StepStores(s1, op);
      var k := StoredAt(s, ops);
      if k < |ops| {
        DataMore(ops, k);
        if k == |before| {
          assert before[k..] == [];
          NoData();
        }
      }
      Neutral(Written(s, before));
    }
  }

  lemma NoData()
    ensures DataOf([]) == []
  {
  }

  lemma SendKeepsTrailers(s: State)
    ensures Send(s, []).0.trailers == s.trailers && Uncorked(s).0.trailers == s.trailers
    ensures Finish(s).0.trailers == s.trailers
  {
    hide Sized, Total, Sizes, LastFrame;
  }

  lemma StepTrailers(s: State, op: Op)
    ensures Step(s, op).0.trailers == if op.AddTrailers? then op.lines else s.trailers
  {
    hide StartHead, WriteBody, Send, Uncorked, Finish;
    match op
    case WriteHead(h) => StartKeepsTrailers(s, h);
    case FlushHeaders(h) =>
      StartKeepsTrailers(s, h);
      SendKeepsTrailers(StartHead(s, h).0);
    case Write(data, h) =>
      StartKeepsTrailers(s, h);
      WriteKeepsHeader(StartHead(s, h).0, data);
    case Uncork => SendKeepsTrailers(s);
    case End(last, h) =>
      if !s.finished {
        hide Step;
        EndUnfolds(s, last, h);
        StartKeepsTrailers(WithLength(s, last), h);
        if last.Some? {
          WriteKeepsHeader(StartHead(WithLength(s, last), h).0, last.value);
        }
        SendKeepsTrailers(AtLast(s, last, h).0);
      }
    case _ =>
  }

  lemma {:induction false} RunTrailers(s: State, ops: seq<Op>)
    requires s.trailers == []
    ensures Run(s, ops).0.trailers == LastTrailers(ops)
    decreases |ops|
  {
    hide Step;
    if ops != [] {
      RunTrailers(s, ops[..|ops| - 1]);
      StepTrailers(Run(s, ops[..|ops| - 1]).0, ops[|ops| - 1]);
    }
  }

  // -------------------------------------------------------------------- one response

  /** What a handler does with its response: calls, the one that ends it, and calls that come too late. */
  datatype Plan = Plan(ops: seq<Op>, last: Option<Data>, head: Head, after: seq<Op>)
  {
    function Ending(): Op { End(last, head) }

    function Upto(): seq<Op> { ops + [Ending()] }

    function Calls(): seq<Op> { Upto() + after }

    /** The call that stores the header of a new response; when all others do not, `end` does. */
    function Storing(s: State): (k: nat)
      ensures k < |Upto()|
    {
      var k := StoredAt(s, Upto());
      if k < |Upto()| then k else |ops|
    }

    /** The head which that call brings. */
    function Giving(s: State): Head {
      var h := HeadOf(Upto()[Storing(s)]);
      if h.Some? then h.value else head
    }

    /** What the fields that are added to it are chosen from. */
    function Before(s: State): Framing {
      FramingFor(Run(s, Upto()[..Storing(s)]).0, Upto()[Storing(s)])
    }

    /** What its handler has given a response: that head with its added fields, the data from there on, the last trailers. */
    function Meant(s: State): Answer {
      Answer(HeadLines(Before(s), Giving(s)), DataOf(Upto()[Storing(s)..]), LastTrailers(ops))
    }

    /** The header that is stored. */
    function Header(s: State): Bytes {
      var header := Step(Run(s, ops).0, Ending()).0.header;
      if header.Some? then header.value else []
    }
  }

  /** The plan sends its response in chunks, and as `ChunkedMessage` wants it. */
  ghost predicate Sends(s: State, p: Plan) {
    && (forall i :: 0 <= i < |p.ops| ==> WellMade(p.ops[i]) && !p.ops[i].End? && HeadsText(p.ops[i]))
    && WellMade(p.Ending()) && HeadsText(p.Ending()) && Matched(s, p.ops)
    && InChunks(Step(Run(s, p.ops).0, p.Ending()).0)
    && EndsClean(Run(s, p.ops).0, p.last, p.head) && AllSound(Chunks(s, p.ops + [p.Ending()]))
  }

  /**
   * A response is read from in front of whatever follows it: the lines of the
   * head that its handler gave, with the added ones behind them, the data that
   * it was given, and the trailers given last.
   */
  lemma {:induction false} ResponseReads(s: State, p: Plan, tail: Bytes)
    requires IsFresh(s) && Sends(s, p)
    ensures WholeHead(p.Header(s)) && p.Giving(s).text <= p.Header(s)
    ensures ReadAnswer(Run(s, p.Calls()).1 + tail) == Some((p.Meant(s), tail))
  {
    hide *;
    FreshOpen(s);
    SendsParts(s, p);
    SoundClear(Chunks(s, p.ops + [End(p.last, p.head)]), HeldBack(Run(s, p.ops).0, p.last, p.head));
    ChunkedMessage(s, p.ops, p.last, p.head, p.after);
    PlanHeader(s, p);
    PlanData(s, p);
    RunTrailers(s, p.ops);
    var all, header := Run(s, p.Calls()).1, p.Header(s);
    PlanParts(s, p);
    var body := all[|header|..];
    assert all == header + body;
    AnswerReads(header, body, Message(p.Meant(s).body, LastTrailers(p.ops), []), tail);
  }

  lemma SoundClear(parts: seq<Part>, held: Bytes)
    requires AllSound(parts)
    ensures Estimates(parts) && Clear(parts, held)
  {
    assert forall i :: 0 <= i < |parts| ==> Sound(parts[i]);
  }

  lemma FreshOpen(s: State)
    requires IsFresh(s)
    ensures Open(s) && s.header.None? && s.buffer == [] && s.trailers == [] && !s.finished
  {
  }

  lemma SendsParts(s: State, p: Plan)
    requires Sends(s, p)
    ensures forall i :: 0 <= i < |p.ops| ==> WellMade(p.ops[i]) && !p.ops[i].End? && HeadsText(p.ops[i])
    ensures Matched(s, p.ops) && WellMade(End(p.last, p.head)) && HeadsText(p.Ending())
    ensures InChunks(Step(Run(s, p.ops).0, End(p.last, p.head)).0)
    ensures EndsClean(Run(s, p.ops).0, p.last, p.head) && AllSound(Chunks(s, p.ops + [End(p.last, p.head)]))
    ensures Step(Run(s, p.ops).0, End(p.last, p.head)).0.header.Some?
  {
    hide Step, Run, EndsClean, Chunks, Matched, HeadsText, WellMade;
  }

  lemma PlanParts(s: State, p: Plan)
    requires Step(Run(s, p.ops).0, End(p.last, p.head)).0.header.Some?
    ensures p.Calls() == p.ops + [End(p.last, p.head)] + p.after
    ensures p.Header(s) == Step(Run(s, p.ops).0, End(p.last, p.head)).0.header.value
    ensures p.Meant(s) ==
            Answer(HeadLines(p.Before(s), p.Giving(s)), DataOf(p.Upto()[p.Storing(s)..]), LastTrailers(p.ops))
  {
    hide Step, Run, DataOf, HeadLines, StoredAt, FramingFor, LastTrailers;
  }

  /** One more call on a run. */
  lemma UptoRun(s: State, p: Plan)
    ensures Run(s, p.Upto()).0 == Step(Run(s, p.ops).0, p.Ending()).0
  {
    hide Step;
    RunLast(s, p.ops, p.Ending());
  }

  lemma PlanHeader(s: State, p: Plan)
    requires IsFresh(s) && Sends(s, p)
    ensures WholeHead(p.Header(s)) && LinesOf(p.Header(s)) == HeadLines(p.Before(s), p.Giving(s))
    ensures p.Giving(s).text <= p.Header(s)
  {
    hide Step, Run, WholeHead, HeadText, EndsClean, Chunks, Matched, WellMade, ChooseFraming, HeadLines, StoredAt,
         FramingFor, LinesOf;
    var all := p.Upto();
    UptoRun(s, p);
    RunStores(s, all);
    var k := StoredAt(s, all);
    assert HeadsText(all[k]);
    StoredLines(p.Before(s), p.Giving(s));
  }

  lemma {:induction false} PlanData(s: State, p: Plan)
    requires IsFresh(s) && Sends(s, p)
    ensures DataOf(p.Upto()[p.Storing(s)..]) == Written(s, p.ops) + (if p.last.Some? then p.last.value.bytes else [])
  {
    hide Step, Run, EndsClean, Chunks, Matched, WellMade, StartHead, HeadsText, DataOf, ChooseFraming, FramingFor, HeadOf,
         Written;
    var all, s1 := p.Upto(), Run(s, p.ops).0;
    WrittenData(s, p.ops);
    RunStores(s, p.ops);
    UptoRun(s, p);
    RunStores(s, all);
    StepStores(s1, p.Ending());
    assert all[..|all| - 1] == p.ops;
    var k := p.Storing(s);
    DataMore(all, k);
    if k == |p.ops| {
      assert p.ops[k..] == [];
      NoData();
    }
  }

  lemma AnswerReads(header: Bytes, body: Bytes, m: Message, tail: Bytes)
    requires WholeHead(header) && Read(body) == Some(m) && m.rest == []
    ensures ReadAnswer(header + body + tail) == Some((Answer(LinesOf(header), m.body, m.trailers), tail))
  {
    hide Read, ReadLines;
    ReadLinesFurther(header, body + tail);
    assert header + body + tail == header + (body + tail) && [] + (body + tail) == body + tail;
    ReadFurther(body, tail);
    assert [] + tail == tail;
  }

  // --------------------------------------------------------------------- the wire

  /** What the handlers of the first `n` responses meant. */
  function Answers(es: seq<Event>, plans: seq<Plan>, n: nat): (r: seq<Answer>)
    requires n <= |plans| == |Requests(es)|
    ensures |r| == n
  {
    if n == 0 then [] else Answers(es, plans, n - 1) + [plans[n - 1].Meant(Requests(es)[n - 1])]
  }

  ghost predicate AllSend(es: seq<Event>, plans: seq<Plan>) {
    && |plans| == |Requests(es)|
    && forall i :: 0 <= i < |plans| ==>
         IsFresh(Requests(es)[i]) && Sends(Requests(es)[i], plans[i]) && CallsOf(es, i) == plans[i].Calls()
  }

  /** The stored header is whole lines and begins with the text that the handler gave. */
  predicate HeaderGiven(s: State, p: Plan) {
    WholeHead(p.Header(s)) && p.Giving(s).text <= p.Header(s)
  }

  function AddAnswers(a: seq<Answer>, r: Option<seq<Answer>>): Option<seq<Answer>> {
    if r.None? then None else Some(a + r.value)
  }

  lemma {:induction false} StreamsRead(es: seq<Event>, plans: seq<Plan>, n: nat, tail: Bytes)
    requires AllSend(es, plans) && n <= |plans|
    ensures forall i :: 0 <= i < n ==> HeaderGiven(Requests(es)[i], plans[i])
    ensures ReadAnswers(Streams(es, n) + tail) == AddAnswers(Answers(es, plans, n), ReadAnswers(tail))
    decreases n
  {
    hide Requests, CallsOf, Sends, IsFresh, Run, ReadAnswer, Plan.Header, Plan.Meant, Plan.Calls, Plan.Giving,
         WholeHead;
    if n == 0 {
      assert [] + tail == tail;
      NoAnswers(ReadAnswers(tail));
    } else {
      var s, p := Requests(es)[n - 1], plans[n - 1];
      var out := Run(s, p.Calls()).1;
      ResponseReads(s, p, tail);
      StreamsRead(es, plans, n - 1, out + tail);
      assert Streams(es, n) + tail == Streams(es, n - 1) + (out + tail);
      MoreAnswers(Answers(es, plans, n - 1), ReadAnswer(out + tail).value.0, ReadAnswers(tail));
    }
  }

  lemma NoAnswers(r: Option<seq<Answer>>)
    ensures AddAnswers([], r) == r
  {
    if r.Some? { assert [] + r.value == r.value; }
  }

  lemma MoreAnswers(a: seq<Answer>, b: Answer, r: Option<seq<Answer>>)
    ensures AddAnswers(a, AddAnswer(b, r)) == AddAnswers(a + [b], r)
  {
    if r.Some? { assert a + ([b] + r.value) == a + [b] + r.value; }
  }

  lemma {:induction false} RequestsFresh(es: seq<Event>)
    requires Legal(es)
    ensures forall i :: 0 <= i < |Requests(es)| ==> IsFresh(Requests(es)[i])
    decreases |es|
  {
    hide IsFresh, StepConn;
    if es != [] { RequestsFresh(es[..|es| - 1]); }
  }

  /**
   * When all responses of a run have finished, each sent in chunks and ended
   * clean, a client that reads the wire from its start finds one answer per
   * request, in order, with the head, the data and the trailers that its handler
   * gave it, and nothing else; however the handlers' calls interleave.
   */
  lemma {:induction false} ClientReads(es: seq<Event>, plans: seq<Plan>)
    requires Legal(es) && After(es).done == |After(es).slots|
    requires |plans| == |Requests(es)|
    requires forall i :: 0 <= i < |plans| ==> Sends(Requests(es)[i], plans[i]) && CallsOf(es, i) == plans[i].Calls()
    ensures forall i :: 0 <= i < |plans| ==> HeaderGiven(Requests(es)[i], plans[i])
    ensures ReadAnswers(After(es).wire) == Some(Answers(es, plans, |plans|))
  {
    hide Legal, After, Requests, CallsOf, Sends, IsFresh, Streams, Plan.Calls, Answers, ReadAnswer, HeaderGiven;
    RequestsFresh(es);
    InRequestOrder(es);
    var n := |plans|;
    StreamsRead(es, plans, n, []);
    assert ReadAnswers([]) == Some([]);
    assert Streams(es, n) + [] == Streams(es, n);
    assert Answers(es, plans, n) + [] == Answers(es, plans, n);
  }
}
