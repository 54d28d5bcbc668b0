/** When a connection closes after a response, and whether the header has said so. */
module HttpClosing {
  import opened CodeUnits
  import opened Results
  import opened HttpChunked
  import opened HttpMessage
  import opened HttpFraming
  import opened HttpPipeline
  import opened HttpReading

  /** The caller leaves the `Connection` field to the response. */
  predicate LeavesConnection(f: Framing, h: Head) {
    h.connection == NoConnection && !f.removed.connection
  }

  const SAYS_CLOSE: Bytes := Ascii("Connection: close\r\n")
  const SAYS_KEEP: Bytes := Ascii("Connection: keep-alive\r\n")

  /** The connection is to be kept, and the caller has removed both fields that could tell where the body ends. */
  predicate EndsUntold(f: Framing, h: Head) {
    && f.hasBody && h.status != 204 && h.status != 304 && !(100 <= h.status <= 199)
    && f.keepAlive && f.chunkedByDefault && h.contentLength.None? && h.coding == NoCoding
    && f.removed.coding && (h.trailer || f.removed.length || f.contentLength.None?)
  }

  /**
   * A `Connection` field is added exactly when the caller leaves it to the
   * response, and to a new response that may keep its connection it says "close"
   * exactly when the connection will close after it; the one exception is a body
   * whose end the caller took away.
   */
  lemma ConnectionTold(f: Framing, h: Head)
    ensures var (f', connection, _) := Chosen(f, h);
            && (connection != [] <==> LeavesConnection(f, h))
            && (LeavesConnection(f, h) ==> SAYS_CLOSE == connection || SAYS_KEEP <= connection)
            && (LeavesConnection(f, h) && f.limitReached ==> SAYS_CLOSE == connection)
            && (LeavesConnection(f, h) && !f.limitReached && !f.last ==>
                  ((connection == SAYS_CLOSE <==> f'.last) <==> !EndsUntold(f, h)))
  {
    hide Ascii, ConnectionLine, FramingLine, MatchHeaders;
    var f0 := if Bodiless(h.status) then f.(hasBody := false) else f;
    MatchFacts(f0, h);
    MatchMore(f0, h);
    var f1 := Unchunk(MatchHeaders(f0, h), h);
    ConnectionText(f1, h);
    ConnectionFacts(f1, h);
    ConnectionMore(f1, h);
    FramingLast(ConnectionLine(f1, h).0, h);
  }

  lemma MatchMore(f: Framing, h: Head)
    ensures var f' := MatchHeaders(f, h);
            f'.limitReached == f.limitReached && f'.removed.coding == (f.removed.coding && h.coding == NoCoding)
  {
    hide MatchConnection, MatchCoding, MatchLength, MatchKeepAlive;
    var f1 := MatchConnection(f, h);
    MatchConnectionMore(f, h);
    MatchCodingMore(f1, h);
    MatchLengthMore(MatchCoding(f1, h), h);
    MatchKeepAliveMore(MatchLength(MatchCoding(f1, h), h), h);
  }

  lemma MatchConnectionMore(f: Framing, h: Head)
    ensures MatchConnection(f, h).limitReached == f.limitReached && MatchConnection(f, h).removed.coding == f.removed.coding
  {
  }

  lemma MatchCodingMore(f: Framing, h: Head)
    ensures MatchCoding(f, h).limitReached == f.limitReached
    ensures MatchCoding(f, h).removed.coding == (f.removed.coding && h.coding == NoCoding)
  {
  }

  lemma MatchLengthMore(f: Framing, h: Head)
    ensures MatchLength(f, h).limitReached == f.limitReached && MatchLength(f, h).removed.coding == f.removed.coding
  {
  }

  lemma MatchKeepAliveMore(f: Framing, h: Head)
    ensures MatchKeepAlive(f, h).limitReached == f.limitReached && MatchKeepAlive(f, h).removed.coding == f.removed.coding
  {
  }

  lemma ConnectionText(f: Framing, h: Head)
    ensures var (_, text) := ConnectionLine(f, h);
            && (text != [] <==> LeavesConnection(f, h))
            && (LeavesConnection(f, h) ==> text == SAYS_CLOSE || SAYS_KEEP <= text)
            && (LeavesConnection(f, h) ==>
                  (text == SAYS_CLOSE <==>
                   f.limitReached || !(f.keepAlive && (h.contentLength.Some? || f.chunkedByDefault))))
  {
    hide Ascii, KeepAliveLine;
    TextsDiffer(KeepAliveLine(f.hint));
  }

  lemma ConnectionMore(f: Framing, h: Head)
    ensures ConnectionLine(f, h).0.removed == f.removed && ConnectionLine(f, h).0.limitReached == f.limitReached
  {
    hide Ascii, KeepAliveLine;
  }

  lemma FramingLast(f: Framing, h: Head)
    ensures FramingLine(f, h).0.last ==
            (f.last || (h.contentLength.None? && h.coding == NoCoding && f.hasBody
                        && (!f.chunkedByDefault
                            || (f.removed.coding && (h.trailer || f.removed.length || f.contentLength.None?)))))
  {
    hide Ascii, LengthLine;
  }

  lemma TextsDiffer(more: Bytes)
    ensures SAYS_CLOSE != [] && SAYS_KEEP + more != [] && SAYS_KEEP + more != SAYS_CLOSE
    ensures SAYS_KEEP <= SAYS_KEEP + more
  {
    assert |SAYS_CLOSE| == 19;
    assert SAYS_CLOSE[12] == 0x63;
    assert (SAYS_KEEP + more)[12] == SAYS_KEEP[12] == 0x6B;
  }

  /** No field that the caller has removed comes back, unless the caller gives it again. */
  lemma RemovedStay(f: Framing, h: Head)
    ensures var (_, connection, framing) := Chosen(f, h);
            && (f.removed.connection ==> connection == [])
            && (f.removed.length && h.contentLength.None? ==> framing == [] || framing == SAYS_CHUNKED)
            && (f.removed.coding && h.coding == NoCoding ==>
                  framing == [] || exists n :: f.contentLength == Some(n) && framing == LengthLine(n))
  {
    hide Ascii, ConnectionLine, MatchHeaders, LengthLine;
    var f0 := if Bodiless(h.status) then f.(hasBody := false) else f;
    MatchFacts(f0, h);
    MatchMore(f0, h);
    var f1 := Unchunk(MatchHeaders(f0, h), h);
    ConnectionText(f1, h);
    ConnectionFacts(f1, h);
    ConnectionMore(f1, h);
  }

  const SAYS_CHUNKED: Bytes := Ascii("Transfer-Encoding: chunked\r\n")

  /** `removeHeader` and then a head without that field: it is not added. */
  lemma RemovedNotAdded(s: State, field: Removable, h: Head)
    requires s.header.None?
    ensures var f := Step(s, RemoveHeader(field)).0.framing; var (_, connection, framing) := Chosen(f, h);
            match field
            case ConnectionField => connection == []
            case ContentLengthField => h.contentLength.None? ==> framing == [] || framing == SAYS_CHUNKED
            case CodingField =>
              h.coding == NoCoding ==>
                framing == [] || exists n :: f.contentLength == Some(n) && framing == LengthLine(n)
  {
    hide Chosen;
    RemovedStay(Step(s, RemoveHeader(field)).0.framing, h);
  }

  /** A caller who gives a `Keep-Alive` field gets no other. */
  lemma OwnKeepAlive(f: Framing, h: Head)
    requires h.keepAliveField
    ensures Chosen(f, h).1 in {[], SAYS_CLOSE, SAYS_KEEP}
  {
    hide Ascii, MatchHeaders, FramingLine;
    var f0 := if Bodiless(h.status) then f.(hasBody := false) else f;
    assert !MatchHeaders(f0, h).hint.byDefault by { hide MatchConnection, MatchCoding, MatchLength; MatchHint(f0, h); }
    var f1 := Unchunk(MatchHeaders(f0, h), h);
    assert KeepAliveLine(f1.hint) == [] && SAYS_KEEP + [] == SAYS_KEEP;
  }

  lemma MatchHint(f: Framing, h: Head)
    requires h.keepAliveField
    ensures !MatchHeaders(f, h).hint.byDefault
  {
    hide MatchConnection, MatchCoding, MatchLength;
  }

  /** Chunks announced for a 204 or 304 response are not sent; the connection closes, unless the caller says otherwise. */
  lemma NoChunksWithoutBody(f: Framing, h: Head)
    requires h.status == 204 || h.status == 304
    ensures var (f', connection, framing) := Chosen(f, h);
            && !f'.chunked && framing == []
            && ((f.chunked || h.coding == Chunked) && LeavesConnection(f, h) ==> f'.last && connection == SAYS_CLOSE)
  {
    hide Ascii, ConnectionLine, MatchHeaders, LengthLine;
    var f0 := f.(hasBody := false);
    MatchFacts(f0, h);
    var f1 := Unchunk(MatchHeaders(f0, h), h);
    ConnectionText(f1, h);
    ConnectionFacts(f1, h);
  }

  /** A head that announces trailers is stored only for a message in chunks; any other head is stored. */
  lemma TrailersNeedChunks(f: Framing, h: Head)
    ensures var (f', header) := ChooseFraming(f, h); if h.trailer then header.Some? <==> f'.chunked else header.Some?
  {
    hide Chosen;
  }

  /**
   * A response whose length nobody has told: a client that knows HTTP/1.1, or
   * has said that it takes chunks, gets chunks; to any other the connection
   * closes after the body. A request for the head alone gets no body.
   */
  lemma UntoldLength(isHead: bool, http11: bool, accepts: bool, keepAlive: bool, hint: Hint, h: Head)
    requires h.contentLength.None? && h.coding == NoCoding && h.status == 200
    ensures var (f, _, framing) := Chosen(Fresh(isHead, http11, accepts, keepAlive, false, hint).framing, h);
            && f.hasBody == !isHead && f.chunked == (!isHead && (http11 || accepts))
            && (f.chunked <==> framing == SAYS_CHUNKED)
            && (!isHead && !f.chunked ==> f.last)
  {
    hide Ascii, ConnectionLine, MatchHeaders, LengthLine;
    var f0 := Fresh(isHead, http11, accepts, keepAlive, false, hint).framing;
    MatchFacts(f0, h);
    MatchMore(f0, h);
    var f1 := Unchunk(MatchHeaders(f0, h), h);
    ConnectionFacts(f1, h);
    ConnectionMore(f1, h);
    LinesNonEmpty(0);
  }

  // ---------------------------------------------------------------- the connection

  /** The finished responses that are marked last. */
  ghost predicate ClosedByLast(c: Conn) {
    && c.done <= |c.slots|
    && (forall i :: 0 <= i < c.done ==> c.slots[i].state.header.Some?)
    && (forall i :: 0 <= i < c.done - 1 ==> !c.slots[i].state.framing.last)
    && (c.closing <==> c.done > 0 && c.slots[c.done - 1].state.framing.last)
  }

  lemma StepCloses(c: Conn, e: Event)
    requires ClosedByLast(c) && Enabled(c, e)
    requires e == Finished ==> c.slots[c.done].state.header.Some?
    ensures ClosedByLast(StepConn(c, e))
  {
    hide Step;
    if e.Call? {
      StepStores(c.slots[e.i].state, e.op);
    }
  }

  lemma OwnerDone(es: seq<Event>)
    requires Legal(es)
    ensures var c := After(es); forall i :: 0 <= i < |c.slots| && c.slots[i].state.finished ==> c.slots[i].state.header.Some?
  {
    hide Legal, After, Alone, Requests, NoCallsYet, Streams;
    RunOrdered(es);
    var c := After(es);
    forall i | 0 <= i < |c.slots| && c.slots[i].state.finished ensures c.slots[i].state.header.Some? {
      assert InPlace(es, c, i);
    }
  }

  /**
   * A connection closes after the first finished response that is marked last,
   * and after no other: in every run none before the newest finished one is
   * marked, and the connection is closing exactly when that one is.
   */
  lemma {:induction false} ClosesAfterLast(es: seq<Event>)
    requires Legal(es)
    ensures ClosedByLast(After(es))
    decreases |es|
  {
    hide StepConn, ClosedByLast;
    if es == [] {
      NothingClosed();
    } else {
      var before := es[..|es| - 1];
      ClosesAfterLast(before);
      OwnerDone(before);
      StepCloses(After(before), es[|es| - 1]);
    }
  }

  lemma NothingClosed()
    ensures ClosedByLast(START)
  {
  }
}
