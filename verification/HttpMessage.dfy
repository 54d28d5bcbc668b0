/**
 * One response of lib/_http_outgoing.js and lib/_http_server.js on its own: the
 * framing chosen with the header, and the bytes each call hands on, in order,
 * wherever they go from there.
 */
module HttpMessage {
  import opened CodeUnits
  import opened Results
  import opened HttpChunked

  /**
   * Data of one write: the bytes that are sent, the `length` property of the
   * string or buffer they come from, and what `Buffer.byteLength` says of it,
   * which for base64 and hexadecimal text is an estimate.
   */
  datatype Data = Data(bytes: Bytes, length: nat, size: nat)

  datatype Connection = NoConnection | Close | KeepAlive

  datatype Coding = NoCoding | Chunked | OtherCoding

  /**
   * What `writeHead` has to go on: the status, the header text as serialized
   * so far, and which framing fields are in it.
   */
  datatype Head = Head(status: nat, text: Bytes, connection: Connection, coding: Coding, contentLength: Option<nat>,
                       trailer: bool, expectField: bool, keepAliveField: bool)

  datatype Removable = ConnectionField | ContentLengthField | CodingField

  /** `_keepAliveTimeout` in milliseconds, `_maxRequestsPerSocket`, and whether the caller has set no `Keep-Alive` field. */
  datatype Hint = Hint(timeout: nat, maxRequests: nat, byDefault: bool)

  /** The fields that the caller has removed. */
  datatype Removed = Removed(connection: bool, length: bool, coding: bool)

  /** The fields of an outgoing message that decide its framing. */
  datatype Framing = Framing(
    hasBody: bool, chunkedByDefault: bool, keepAlive: bool, limitReached: bool, last: bool, chunked: bool,
    hint: Hint,
    removed: Removed, contentLength: Option<nat>)

  /** The fields of an outgoing message that decide what it writes. */
  datatype State = State(
    framing: Framing,
    header: Option<Bytes>, headerSent: bool, corked: int, buffer: seq<Data>, trailers: seq<Bytes>, finished: bool)

  datatype Op =
    | RemoveHeader(field: Removable)
    | WriteHead(head: Head)
    | FlushHeaders(head: Head)
    | AddTrailers(lines: seq<Bytes>)
    | Write(data: Data, head: Head)
    | Cork
    | Uncork
    | End(last: Option<Data>, head: Head)

  function Decimal(n: nat): string {
    if n < 10 then [('0' as int + n) as char] else Decimal(n / 10) + [('0' as int + n % 10) as char]
  }

  // -------------------------------------------------------------------- header

  /** `matchHeader` on the fields that `h` has. */
  function MatchHeaders(f: Framing, h: Head): Framing {
    MatchKeepAlive(MatchLength(MatchCoding(MatchConnection(f, h), h), h), h)
  }

  function MatchConnection(f: Framing, h: Head): Framing {
    match h.connection
    case NoConnection => f
    case Close => f.(removed := f.removed.(connection := false), last := true)
    case KeepAlive => f.(removed := f.removed.(connection := false), keepAlive := true)
  }

  function MatchCoding(f: Framing, h: Head): Framing {
    match h.coding
    case NoCoding => f
    case Chunked => f.(removed := f.removed.(coding := false), chunked := true)
    case OtherCoding => f.(removed := f.removed.(coding := false))
  }

  function MatchLength(f: Framing, h: Head): Framing {
    if h.contentLength.None? then f else f.(removed := f.removed.(length := false), contentLength := h.contentLength)
  }

  function MatchKeepAlive(f: Framing, h: Head): Framing {
    if h.keepAliveField then f.(hint := f.hint.(byDefault := false)) else f
  }

  /** The status codes whose responses have no body. */
  predicate Bodiless(status: nat) {
    status == 204 || status == 304 || 100 <= status <= 199
  }

  /** 204 and 304 responses are not sent in chunks, and the connection is not kept for them. */
  function Unchunk(f: Framing, h: Head): Framing {
    if f.chunked && (h.status == 204 || h.status == 304) then f.(chunked := false, keepAlive := false) else f
  }

  /** `Keep-Alive: timeout`, with the number of requests that a connection may have if that is positive as 32 bits. */
  function KeepAliveLine(hint: Hint): Bytes {
    if hint.timeout == 0 || !hint.byDefault then []
    else
      var max := if 0 < hint.maxRequests % 0x1_0000_0000 < 0x8000_0000 then ", max=" + Decimal(hint.maxRequests) else "";
      Ascii("Keep-Alive: timeout=" + Decimal(hint.timeout / 1000) + max + "\r\n")
  }

  /** The `Connection` field that is added, with the new state. */
  function ConnectionLine(f: Framing, h: Head): (Framing, Bytes) {
    if f.removed.connection then (f.(last := !f.keepAlive), [])
    else if h.connection != NoConnection then (f, [])
    else if f.keepAlive && (h.contentLength.Some? || f.chunkedByDefault) then
      (f, if f.limitReached then Ascii("Connection: close\r\n")
          else Ascii("Connection: keep-alive\r\n") + KeepAliveLine(f.hint))
    else (f.(last := true), Ascii("Connection: close\r\n"))
  }

  /** The framing field that is added, with the new state. */
  function FramingLine(f: Framing, h: Head): (Framing, Bytes) {
    if h.contentLength.Some? || h.coding != NoCoding then (f, [])
    else if !f.hasBody then (f.(chunked := false), [])
    else if !f.chunkedByDefault then (f.(last := true), [])
    else if !h.trailer && !f.removed.length && f.contentLength.Some? then
      (f, LengthLine(f.contentLength.value))
    else if !f.removed.coding then (f.(chunked := true), Ascii("Transfer-Encoding: chunked\r\n"))
    else (f.(last := true), [])
  }

  /** What `writeHead` and `_storeHeader` decide, with the `Connection` and framing lines they add. */
  function Chosen(f: Framing, h: Head): (Framing, Bytes, Bytes) {
    var f1 := Unchunk(MatchHeaders(if Bodiless(h.status) then f.(hasBody := false) else f, h), h);
    var (f2, connection) := ConnectionLine(f1, h);
    var (f3, framing) := FramingLine(f2, h);
    (f3, connection, framing)
  }

  /** The header is stored, except when a trailer is announced without chunks. */
  function ChooseFraming(f: Framing, h: Head): (Framing, Option<Bytes>) {
    var (f', connection, framing) := Chosen(f, h);
    (f', if h.trailer && !f'.chunked then None else Some(h.text + connection + framing + CRLF))
  }

  function StoreHeader(s: State, h: Head): State
    requires s.header.None?
  {
    var (f, header) := ChooseFraming(s.framing, h);
    if header.None? then s.(framing := f) else s.(framing := f, header := header, headerSent := false)
  }

  // ------------------------------------------------------------- where a body ends

  /** The stored header tells where the body ends: by its length, by chunks, or with the connection. */
  predicate Delimited(f: Framing, h: Head, framing: Bytes) {
    h.contentLength.Some? || h.coding == Chunked || framing != [] || f.last
  }

  /** A coding other than chunks without a length, on a connection that goes on. */
  predicate Endless(f: Framing, h: Head) {
    && h.coding == OtherCoding && h.contentLength.None? && h.connection != Close
    && (if f.removed.connection && h.connection == NoConnection then f.keepAlive
        else !f.last && (h.connection == KeepAlive || (f.keepAlive && f.chunkedByDefault)))
  }

  /** The line that `_storeHeader` adds is a length or the announcement of chunks, and says what will be done. */
  predicate Announces(f: Framing, framing: Bytes) {
    || framing == []
    || (f.contentLength.Some? && framing == LengthLine(f.contentLength.value))
    || (f.chunked && framing == Ascii("Transfer-Encoding: chunked\r\n"))
  }

  function LengthLine(length: nat): Bytes {
    Ascii("Content-Length: " + Decimal(length) + "\r\n")
  }

  lemma MatchFacts(f: Framing, h: Head)
    ensures var f' := MatchHeaders(f, h);
            && f'.hasBody == f.hasBody && f'.chunkedByDefault == f.chunkedByDefault
            && f'.chunked == (f.chunked || h.coding == Chunked)
            && f'.keepAlive == (f.keepAlive || h.connection == KeepAlive) && f'.last == (f.last || h.connection == Close)
            && f'.removed.connection == (f.removed.connection && h.connection == NoConnection)
            && f'.removed.length == (f.removed.length && h.contentLength.None?)
            && f'.contentLength == (if h.contentLength.Some? then h.contentLength else f.contentLength)
  {
    hide MatchConnection, MatchCoding, MatchLength, MatchKeepAlive;
    var f1 := MatchConnection(f, h);
    ConnectionMatched(f, h);
    var f2 := MatchCoding(f1, h);
    CodingMatched(f1, h);
    var f3 := MatchLength(f2, h);
    LengthMatched(f2, h);
    KeepAliveMatched(f3, h);
  }

  lemma ConnectionMatched(f: Framing, h: Head)
    ensures var f' := MatchConnection(f, h);
            && f'.hasBody == f.hasBody && f'.chunkedByDefault == f.chunkedByDefault && f'.chunked == f.chunked
            && f'.keepAlive == (f.keepAlive || h.connection == KeepAlive) && f'.last == (f.last || h.connection == Close)
            && f'.removed.connection == (f.removed.connection && h.connection == NoConnection)
            && f'.removed.length == f.removed.length && f'.contentLength == f.contentLength
  {
  }

  lemma CodingMatched(f: Framing, h: Head)
    ensures var f' := MatchCoding(f, h);
            && f'.hasBody == f.hasBody && f'.chunkedByDefault == f.chunkedByDefault
            && f'.chunked == (f.chunked || h.coding == Chunked)
            && f'.keepAlive == f.keepAlive && f'.last == f.last && f'.removed.connection == f.removed.connection
            && f'.removed.length == f.removed.length && f'.contentLength == f.contentLength
  {
    match h.coding
    case NoCoding =>
    case Chunked =>
    case OtherCoding =>
  }

  lemma LengthMatched(f: Framing, h: Head)
    ensures var f' := MatchLength(f, h);
            && f'.hasBody == f.hasBody && f'.chunkedByDefault == f.chunkedByDefault && f'.chunked == f.chunked
            && f'.keepAlive == f.keepAlive && f'.last == f.last && f'.removed.connection == f.removed.connection
            && f'.removed.length == (f.removed.length && h.contentLength.None?)
            && f'.contentLength == (if h.contentLength.Some? then h.contentLength else f.contentLength)
  {
  }

  lemma KeepAliveMatched(f: Framing, h: Head)
    ensures var f' := MatchKeepAlive(f, h);
            && f'.hasBody == f.hasBody && f'.chunkedByDefault == f.chunkedByDefault && f'.chunked == f.chunked
            && f'.keepAlive == f.keepAlive && f'.last == f.last && f'.removed.connection == f.removed.connection
            && f'.removed.length == f.removed.length && f'.contentLength == f.contentLength
  {
  }

  lemma ConnectionFacts(f: Framing, h: Head)
    ensures var f' := ConnectionLine(f, h).0;
            && f'.hasBody == f.hasBody && f'.chunkedByDefault == f.chunkedByDefault && f'.chunked == f.chunked
            && f'.contentLength == f.contentLength && f'.removed.length == f.removed.length
            && f'.last == (if f.removed.connection then !f.keepAlive
                           else f.last || (h.connection == NoConnection
                                           && !(f.keepAlive && (h.contentLength.Some? || f.chunkedByDefault))))
  {
    hide Ascii, KeepAliveLine;
  }

  lemma FramingFacts(f: Framing, h: Head)
    ensures var (f', line) := FramingLine(f, h);
            && f'.hasBody == f.hasBody && f'.contentLength == f.contentLength
            && (f.hasBody && h.contentLength.None? && h.coding == NoCoding ==> line != [] || f'.last)
            && (h.contentLength.Some? || h.coding != NoCoding ==> f' == f && line == [])
            && Announces(f', line)
  {
    hide Decimal;
    LinesNonEmpty(if f.contentLength.Some? then f.contentLength.value else 0);
  }

  lemma LinesNonEmpty(length: nat)
    ensures LengthLine(length) != [] && Ascii("Transfer-Encoding: chunked\r\n") != []
  {
    hide Decimal;
    assert |Ascii("Transfer-Encoding: chunked\r\n")| > 0;
    assert |LengthLine(length)| > 0;
  }

  /**
   * The header leaves a body with an end if and only if it is not `Endless`;
   * what it adds is true of the message, and chunks that the caller announces
   * are sent.
   */
  lemma {:induction false} ChosenFraming(f: Framing, h: Head)
    ensures var (f', connection, framing) := Chosen(f, h);
            && f'.hasBody == (f.hasBody && h.status != 204 && h.status != 304 && !(100 <= h.status <= 199))
            && (f'.hasBody ==> (Delimited(f', h, framing) <==> !Endless(f, h)))
            && (f'.hasBody && h.coding == Chunked ==> f'.chunked)
            && Announces(f', framing)
  {
    hide Ascii, ConnectionLine, FramingLine, MatchHeaders, Announces;
    var f0 := if Bodiless(h.status) then f.(hasBody := false) else f;
    MatchFacts(f0, h);
    var f1 := Unchunk(MatchHeaders(f0, h), h);
    ConnectionFacts(f1, h);
    var (f2, connection) := ConnectionLine(f1, h);
    FramingFacts(f2, h);
  }

  /** The input: `Transfer-Encoding: gzip` and no more, on a new keep-alive response. */
  lemma GzipHasNoEnd()
    ensures var hint := Hint(0, 0, true);
            var f := Fresh(false, true, false, true, false, hint).framing;
            var h := Head(200, [], NoConnection, OtherCoding, None, false, false, false);
            var (f', connection, framing) := Chosen(f, h);
            ChooseFraming(f, h).1.Some? && f'.hasBody && !f'.chunked && !Delimited(f', h, framing)
  {
    hide Ascii, Decimal, KeepAliveLine;
    var f := Fresh(false, true, false, true, false, Hint(0, 0, true)).framing;
    var h := Head(200, [], NoConnection, OtherCoding, None, false, false, false);
    ChosenFraming(f, h);
  }

  // ---------------------------------------------------------------------- calls

  /** The bytes that `_send` hands on for `data`: the header first, when it has not gone yet. */
  function Send(s: State, data: Bytes): (State, Bytes) {
    if !s.headerSent && s.header.Some? then (s.(headerSent := true), s.header.value + data) else (s, data)
  }

  function Total(buffer: seq<Data>): Bytes {
    if buffer == [] then [] else Total(buffer[..|buffer| - 1]) + buffer[|buffer| - 1].bytes
  }

  /** `kChunkedLength` for a buffer. */
  function Sizes(buffer: seq<Data>): nat {
    if buffer == [] then 0 else Sizes(buffer[..|buffer| - 1]) + buffer[|buffer| - 1].size
  }

  /** `uncork`: the last one sends what was written meanwhile as one chunk. */
  function Uncorked(s: State): (State, Bytes) {
    var s1 := s.(corked := s.corked - 1);
    if s1.corked != 0 || s.buffer == [] then (s1, [])
    else Send(s1.(buffer := []), Sized(Sizes(s.buffer), Total(s.buffer)))
  }

  /** `write_` once the header is there. */
  function WriteBody(s: State, data: Data): (State, Bytes) {
    if !s.framing.hasBody then (s, [])
    else if s.framing.chunked && data.length != 0 then
      if s.corked != 0 && s.headerSent then (s.(buffer := s.buffer + [data]), [])
      else Send(s, Sized(data.size, data.bytes))
    else Send(s, data.bytes)
  }

  /** The end of `end()`: the last chunk or whatever makes the header go, then the forced uncork. */
  function Finish(s: State): (State, Bytes) {
    var (s1, out1) := if s.framing.hasBody && s.framing.chunked then Send(s, LastFrame(s.trailers)) else Send(s, []);
    var (s2, out2) := Uncorked(s1.(corked := 1));
    (s2.(finished := true), out1 + out2)
  }

  function Remove(f: Framing, field: Removable): Framing {
    match field
    case ConnectionField => f.(removed := f.removed.(connection := true))
    case ContentLengthField => f.(removed := f.removed.(length := true))
    case CodingField => f.(removed := f.removed.(coding := true))
  }

  /** One call and the bytes it hands on. */
  function Step(s: State, op: Op): (State, Bytes) {
    match op
    case RemoveHeader(field) =>
      (if s.header.Some? then s else s.(framing := Remove(s.framing, field)), [])
    case WriteHead(h) => StartHead(s, h)
    case FlushHeaders(h) =>
      var (s1, out1) := StartHead(s, h);
      if s1.header.None? then (s1, out1) else Then((s1, out1), Send(s1, []))
    case AddTrailers(lines) => (s.(trailers := lines), [])
    case Write(data, h) =>
      if s.finished then (s, [])
      else
        var (s1, out1) := StartHead(s, h);
        if s1.header.None? then (s1, out1) else Then((s1, out1), WriteBody(s1, data))
    case Cork => (s.(corked := s.corked + 1), [])
    case Uncork => Uncorked(s)
    case End(last, h) =>
      if s.finished then (s, [])
      else
        var length := if last.Some? then last.value.size else 0;
        var s0 := if s.header.Some? then s else s.(framing := s.framing.(contentLength := Some(length)));
        var (s1, out1) := StartHead(s0, h);
        if s1.header.None? then (s1, out1)
        else
          var (s2, out2) := if last.Some? then WriteBody(s1, last.value) else (s1, []);
          Then((s1, out1), Then((s2, out2), Finish(s2)))
  }

  /** Storing the header, if that has not happened; an `Expect` field makes it go at once. */
  function StartHead(s: State, h: Head): (State, Bytes) {
    if s.header.Some? then (s, [])
    else
      var s1 := StoreHeader(s, h);
      if s1.header.Some? && h.expectField then Send(s1, []) else (s1, [])
  }

  function Then(a: (State, Bytes), b: (State, Bytes)): (State, Bytes) {
    (b.0, a.1 + b.1)
  }

  function Run(s: State, ops: seq<Op>): (State, Bytes)
    decreases |ops|
  {
    if ops == [] then (s, [])
    else
      var (s1, out1) := Run(s, ops[..|ops| - 1]);
      Then((s1, out1), Step(s1, ops[|ops| - 1]))
  }

  /** A new response: HEAD requests have no body, and HTTP/1.0 clients need not know chunks. */
  function Fresh(isHead: bool, http11: bool, chunksAccepted: bool, keepAlive: bool, limitReached: bool, hint: Hint): State {
    State(Framing(!isHead, http11 || chunksAccepted, keepAlive, limitReached, false, false, hint,
                  Removed(false, false, false), None),
          None, false, 0, [], [], false)
  }
}
