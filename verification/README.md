# Models of a JavaScript standard library

Dafny models of the algorithms and state machines in the `lib/` tree of a
Node-compatible standard library, with proofs of what they are for. Every part
has a specification as functions on values, laws proved about it for all inputs
or all runs, and methods with the original's loops and updates proved against
it.

- **Punycode** (`Punycode*.dfy`). The encoder's sorted sweep and the decoder's
  insertion machine of RFC 3492 undo each other, exactly when every sum fits in
  31 bits; every input that decodes is the encoding of its result; samples of the
  standard fix what is written.
- **Paths** (`Path*.dfy`, `PosixPath.dfy`). `normalizeString` edits a text in
  place; it is proved to be a fold over segments. `normalize` is idempotent,
  `relative` is undone by `resolve` and is the shortest way. `join` is not
  associative everywhere; the exact condition is proved.
- **Query strings** (`Percent*.dfy`, `QueryString*.dfy`). The one-pass
  parser equals the obvious one except on texts of an exact kind, and undoes
  `stringify` under an exact condition.
- **HTTP server connections** (`Http*.dfy`). Responses come out in request
  order whatever their handlers do, each as if it were alone; a chunked message
  reads back exactly when nothing is corked at the end and every chunk is sound,
  and a client reads a connection as the heads, data and trailers that the
  handlers gave; what the header says of the connection is true but for one
  case; the queues' counts are conserved.
- **HTTP agent** (`Agent*.dfy`). The pool's limits, counts and order of service;
  a limit on the total can be passed and break the order, and the exact
  conditions are proved.
- **Real paths** (`Realpath*.dfy`). The restarting walk ends where the kernel's
  walk ends when no ".." leaves a link; the texts for which it always does are
  those without ".." after a name.
- **Events** (`EventIterator*.dfy`, `Emitter*.dfy`). The rendezvous of events
  and calls, when the emitter is paused, what an emit calls over whole runs, and
  the compact listener table.
- **Connecting** (`Connect*.dfy`). The order of addresses and the attempts.
- **Buffer pool** (`Buffer*.dfy`). Slices never meet, up to the exact size at
  which 32-bit alignment fails; where each lies and how long it is.

Strings are sequences of UTF-16 code units in Punycode and query strings and
sequences of characters in paths. Integers are unbounded; the 31-bit guards of
Punycode and the 32-bit operations of the buffer pool are written out. The
network, the file system, connections and decoders from outside are parameters.
An emit, a callback or a handler's call is one step of a state machine.

Where the code does something else than one would expect of it, the model
follows the code, and a lemma names the input: the agent's total can go over
`maxTotalSockets` by one and a newcomer can be served first, an error that is
not truthy is lost by the event iterator, a corked message that ends has its
last chunk before its data, a chunk of a base64 string can be announced longer
than it is, a body of another coding than chunked can have no end, a query
string such as "é%" is left undecoded, and `realpathSync` reduces ".." before it
follows a link.

`dafny verify dfyconfig.toml` verifies the project.

## Model

| member | source | states |
|---|---|---|
| `PunycodeVarInt.ReadDigits` | lib/punycode.js:244-276 | Reading the digits the encoder wrote gives the value back exactly when the sum fits in 31 bits, and overflows otherwise; the weight guard rejects nothing that fits |
| `PunycodeVarInt.ReadIntCanonical` | lib/punycode.js:244-276 | Whatever variable-length integer the decoder accepts is, up to letter case, what the encoder writes for the value read |
| `PunycodeVarInt.ReadIntLower` | lib/punycode.js:156-169 | The case of a digit never matters to the decoder, errors included |
| `PunycodeVarInt.ReadErrors` | lib/punycode.js:244-276 | A finished integer is read or overflows; the input is invalid only where one is not finished, and then nothing is read |
| `PunycodeVarInt.AdaptBounded` | lib/punycode.js:191-199 | For every delta of 31 bits the bias stays below the bound under which the thresholds keep the weights small enough |
| `PunycodeVarInt.ComputeAdapt` | lib/punycode.js:191-199 | The adaptation loop computes the recursive bias function that both directions are proved with |
| `PunycodeVarInt.AdaptStale` | lib/punycode.js:348-377 | A count of code points that is out of date gives the same bias as the current one, because the delta is below both |
| `PunycodeSteps.RunKeeps` | lib/punycode.js:276-290 | Whatever the insertion machine inserts later lies at or above its current code point, so the smaller ones of the result are those already there |
| `PunycodeTheorems.RoundsDecode` | lib/punycode.js:335-386 | From any encoder state and the decoder state that belongs to it, decoding what the rest of the encoder writes gives the input exactly when all remaining sums fit |
| `PunycodeTheorems.SweepDecode` | lib/punycode.js:354-382 | The same within one sweep over the input |
| `PunycodeTheorems.OnlyNextInsertion` | lib/punycode.js:276-290 | Of all insertions the decoder could make next, only the encoder's next one leads to the given result |
| `PunycodeTheorems.RoundsCanonical` | lib/punycode.js:335-386 | Digits that decode to a result are those that the encoder writes for it, from every pair of states that belong together |
| `PunycodeTheorems.SweepCanonical` | lib/punycode.js:354-382 | The same within one sweep |
| `Punycode.RoundTripPoints` | lib/punycode.js:208-388 | For every list of code points decoding the encoding gives it back when every sum fits, and one of the two overflows when not; nothing else happens |
| `Punycode.ShortFits` | lib/punycode.js:337-347 | Every sum fits when (length + 1) * 0x110000 is at most 2^31 - 1 |
| `Punycode.LettersLimit` | lib/punycode.js:252-256 | The limit is real and exact: 1927 letters before U+10FFFF are the first that do not come back |
| `Punycode.Canonical` | lib/punycode.js:208-388 | Every input that decodes is, up to the case of its digits, the encoding of what it decodes to |
| `Punycode.DecodeInjective` | lib/punycode.js:208-293 | Two inputs that decode to the same list differ at most in the case of their digits |
| `Punycode.DecodeLowerTail` | lib/punycode.js:208-293 | Lowering the digits changes neither result nor error |
| `Punycode.Ucs2RoundTrip` | lib/punycode.js:113-145 | Reading code points and writing them again restores every string, unmatched surrogates included |
| `Punycode.Ucs2RoundTripPoints` | lib/punycode.js:113-145 | The other way round holds exactly when no two code points look like a surrogate pair |
| `Punycode.RoundTripString` | lib/punycode.js:208-388 | For strings, decoding the encoding gives the string back if and only if its code points fit, which the length bound ensures |
| `Punycode.CanonicalString` | lib/punycode.js:208-388 | Encoding a decoded string gives the canonical input back if and only if no split surrogate pair came together |
| `Punycode.NotBasicExactly` | lib/punycode.js:219-230 | The "not basic" error is raised exactly for the inputs with a unit beyond ASCII somewhere before a delimiter |
| `PunycodeSamples.DigitTable` | lib/punycode.js:156-183 | The digits of RFC 3492, section 5: "a" to "z" in both cases are 0 to 25, "0" to "9" are 26 to 35, and small letters are written |
| `PunycodeSamples.Umlaut` | lib/punycode.js:302-388 | "ü" is encoded as "tda" and decoded from it |
| `PunycodeSamples.Speed` | lib/punycode.js:191-388 | Sample (R) of RFC 3492, section 7.1, both ways: seven insertions, each at a place and with a bias of its own |
| `PunycodeSamples.Roof` | lib/punycode.js:191-388 | Sample (O), both ways, with a basic character before the delimiter |
| `PunycodeSamples.LargestSum` | lib/punycode.js:244-276 | 2147483647 is the largest sum that is read; the next one overflows |
| `PunycodeSamples.InvalidInputs` | lib/punycode.js:244-256 | Digits that run out and something that is no digit are invalid input |
| `PunycodeLoops.ReadCodePoints` | lib/punycode.js:113-135 | The counting loop computes the code points of the specification |
| `PunycodeLoops.FindNext` | lib/punycode.js:337-342 | The loop over the input finds the least code point not yet handled |
| `PunycodeLoops.WriteDigits` | lib/punycode.js:361-373 | The digit loop writes the variable-length integer, in the digits of PunycodeSamples.DigitTable |
| `PunycodeLoops.RunSweep` | lib/punycode.js:348-386 | One round of the main encoding loop, with its `delta` guard and the count it fixes at its head, is one round of the specification, which counts afresh |
| `PunycodeLoops.Encode` | lib/punycode.js:302-388 | The whole encoder computes the specified result or error |
| `PunycodeLoops.ReadInteger` | lib/punycode.js:244-276 | The inner decoding loop reads the specified integer or raises the specified error |
| `PunycodeLoops.Decode` | lib/punycode.js:208-293 | The whole decoder, splicing into its output, computes the specified result or error |
| `PathLoops.CloseSegment` | lib/path.js:108-145 | One separator of `normalizeString`: editing the text with only the last segment's length known is one step on the segment stack |
| `PathLoops.NormalizeString` | lib/path.js:92-154 | For every separator set the edited text is the join of the folded segment stack |
| `PathLoops.NormalizePath` | lib/path.js:1293-1316 | `normalize` is the rendering of that stack |
| `PathLoops.JoinArgs` | lib/path.js:1332-1349 | `join` skips empty arguments and normalizes the rest joined |
| `PathLoops.ResolveArgs` | lib/path.js:1245-1287 | The loop from the last argument backwards computes the resolution that is proved to be a change of directory |
| `PosixPath.NormalizeIdempotent` | lib/path.js:1293-1316 | Normalizing twice is normalizing once, for all paths |
| `PosixPath.NormalizeSameMeaning` | lib/path.js:1293-1316 | A relative path and its normal form lead from every directory to the same directory |
| `PosixPath.JoinAssociative` | lib/path.js:1332-1349 | For a non-empty first argument `join` is associative if and only if the joined tail is of the stated kind |
| `PosixPath.JoinNotAssociative` | lib/path.js:1332-1349 | Two argument lists for which `join` is not associative |
| `PathRelative.ResolveIsCd` | lib/path.js:1245-1287 | From any normalized working directory `resolve` is changing to each argument in turn |
| `PathRelative.WayLeads` | lib/path.js:1356-1426 | One ".." per segment past the common ones, then the rest of the goal, leads there |
| `PathRelative.WayShortest` | lib/path.js:1356-1426 | No other relative normal form that leads there is as short |
| `PathRelative.ResolveRelative` | lib/path.js:1245-1426 | `resolve(from, relative(from, to))` is `resolve(to)` for all paths |
| `PathRelative.CommonAt` | lib/path.js:1377-1395 | The last separator before the first difference of the two texts is where their common segments end |
| `PathLoops.Compare` | lib/path.js:1377-1395 | The comparison loop finds that separator and the first difference |
| `PathLoops.UpEachSegment` | lib/path.js:1412-1419 | One ".." for each segment of what is left of `from` |
| `PathLoops.RelativeResolved` | lib/path.js:1367-1426 | The character comparison with its special cases at ends and roots computes the way between the directories |
| `PathLoops.Relative` | lib/path.js:1356-1426 | `relative` is the text of that way |
| `PercentEncoding.DecodeEscape` | lib/querystring.js:131-175 | Decoding an escaped string gives it back, with adjacent surrogates paired |
| `PercentEncoding.PairedWellFormed` | lib/querystring.js:163-175 | A string escapes and survives if and only if it is well-formed UTF-16 |
| `PercentEncoding.TableUnreserved` | lib/querystring.js:146-155 | The table lets through just the letters, the digits and `-_.!~*'()` |
| `PercentTexts.EscapeUnique` | lib/querystring.js:146-175 | Escaping a well-formed string gives the one text of those characters and of encoded bytes, in upper case, of anything else that decodes to it; no such text decodes to a string that is not well-formed |
| `PercentTexts.EscapeSame` | lib/querystring.js:146-175 | Escaping leaves a string as it is if and only if all its characters are unreserved |
| `PercentTexts.ReadPointText` | lib/querystring.js:131-138 | Encoded bytes are read as a code point only if they are its one encoding: no longer form, no surrogate |
| `PercentTexts.DecodersAgree` | lib/querystring.js:84-138 | Where `decodeURIComponent` returns and everything not encoded is ASCII, the byte-wise decoder read as UTF-8 gives the same text |
| `PercentTexts.MaximalParts` | lib/querystring.js:135-138 | The example of the Unicode Standard for bytes that are no UTF-8, as the byte-wise decoder's result is read |
| `PercentTexts.HexTable` | lib/querystring.js:60-77 | Hexadecimal digits of both cases have their value in the table, and capital letters are written |
| `PercentEncoding.DecodeNothing` | lib/querystring.js:131-138 | Of a text without an encoded byte `decodeURIComponent` makes that text, or it throws exactly when there is a "%" |
| `PercentEncoding.LowBytes` | lib/querystring.js:84-138 | The bytes that `unescapeBuffer` makes of a text without an encoded byte are the UTF-8 of that text exactly when it has only ASCII and replacement characters; any other text becomes lighter |
| `QueryString.AddPiecesCollects` | lib/querystring.js:286-304 | Collecting the pieces appends to every key its values in order, and a lone value stays a string |
| `QueryString.CompactUnique` | lib/querystring.js:286-304 | A result is determined by the values each key has |
| `QueryStringTexts.SplitJoined` | lib/querystring.js:351-384 | The pieces joined by the separator are the text, and none has a separator in it |
| `QueryStringTexts.CutParts` | lib/querystring.js:385-400 | A piece is cut at its first equals sign, and is all key without one |
| `QueryStringTexts.SpacesAlike` | lib/querystring.js:339-443 | The encoded space that a custom decoder is given for a plus decodes as the space that the default decoder is given |
| `QueryStringTexts.ThrowingDecoder` | lib/querystring.js:478-484 | Where a custom decoder throws, a part is read as without one, spaces included |
| `QueryStringTexts.CustomParse` | lib/querystring.js:286-467 | With a custom decoder that returns, the values of each key are what it makes of every part of every piece taken in, in order |
| `QueryStringLoops.AddKeyVal` | lib/querystring.js:286-304 | What one call adds, with each part decoded only when its flag asks for it |
| `QueryStringFlags.FlagsFind` | lib/querystring.js:385-443 | A key or value with an encoded byte in it has its flag up at the end of the piece, however the two flags share their counter |
| `QueryStringFlags.PartDone` | lib/querystring.js:286-300 | A decode that was skipped because no encoded byte was seen would have changed something exactly when there is a "%" and a character that is neither ASCII nor a replacement character; it would have made the part lighter |
| `QueryStringFlags.LazyExactly` | lib/querystring.js:317-467 | The lazy parser returns what the split, limit, cut and decode parser returns if and only if every piece it takes in is flagged or untouched in both parts; with a custom decoder always |
| `QueryStringFlags.LeftAlone` | lib/querystring.js:286-300 | The input "é%": it is left as it is, and the obvious parser replaces its first character |
| `QueryStringLoops.Parse` | lib/querystring.js:317-467 | For every text, any two separators of one code unit, limit and decoder the one-pass parser with its flags returns what the lazy parser does, and so the result of the obvious one under that same condition |
| `QueryStringLoops.UnescapeBuffer` | lib/querystring.js:84-124 | Filling the buffer by index computes the bytes of the specification |
| `QueryStringLoops.WriteFields` | lib/querystring.js:227-269 | `stringify` writes the pieces of all entries joined by the separator, or throws; what escaping leaves in them is PercentTexts.EscapeUnique |
| `QueryStringRoundTrip.StringifiedFine` | lib/querystring.js:227-467 | What `stringify` writes is parsed alike by the lazy and the obvious parser |
| `QueryStringRoundTrip.StringifyAscii` | lib/querystring.js:227-269 | With ASCII separators what `stringify` writes is ASCII |
| `QueryStringRoundTrip.ParseStringified` | lib/querystring.js:227-467 | Parsing a stringified object gives every key the first of the values it was written with, surrogates paired, and all of them for every key if and only if there are no more values than `maxKeys` |
| `QueryStringRoundTrip.RoundTrip` | lib/querystring.js:227-467 | `parse(stringify(obj))` is `obj`, for distinct keys and separators that are not unreserved characters, if and only if all strings are well-formed, no array has fewer than two elements and there are no more values than `maxKeys` |
| `QueryStringTexts.DefaultOptions` | lib/querystring.js:317-345 | "&" and "=" are such separators |
| `QueryStringTexts.RoundTripPlain` | lib/querystring.js:227-467 | So for calls without options, under the same conditions with 1000 values |
| `QueryStringTexts.WrittenAmpersand` | lib/querystring.js:227-269 | The object {a: 'b&c'} is written as "a=b%26c" |
| `QueryStringLoops.StringifyThenParse` | lib/querystring.js:227-467 | The same for the two loops run one after the other |
| `HttpChunked.ReadMessage` | lib/_http_outgoing.js:948-961 | A reader by section 7.1 of RFC 9112 takes the written chunks, last chunk and trailers for exactly the data and trailers, and stops there |
| `HttpChunked.ReadsBack` | lib/_http_outgoing.js:948-1106 | Chunks, last chunk and whatever is sent after it read back as the data with nothing left if and only if no chunk is empty and nothing is sent after it |
| `HttpSized.SentReadsBack` | lib/_http_outgoing.js:948-1106 | The same for chunks whose announced size may be too high: they read back if and only if every size is right as well |
| `HttpMessage.ChosenFraming` | lib/_http_outgoing.js:397-545 | For every head and every framing before it, a body that is to be sent has an end if and only if the head does not name another coding without a length on a connection that goes on; the added line says what will be done |
| `HttpMessage.GzipHasNoEnd` | lib/_http_outgoing.js:496-593 | The header "Transfer-Encoding: gzip" on a keep-alive response: it is stored and nothing ends the body |
| `HttpFraming.RunFramed` | lib/_http_outgoing.js:887-972 | After any matched calls the bytes are the header and whole chunks with the sizes the calls announce, and what they hold makes up, with the cork buffer, what was written |
| `HttpFraming.ChunkedMessage` | lib/_http_outgoing.js:1029-1106 | A chunked message reads back as the data in call order with one last chunk at the end, if and only if nothing was held back by a cork when it ended, no chunk sent was empty and every chunk was announced with the number of its bytes |
| `HttpFraming.CorkedEnd` | lib/_http_outgoing.js:1079-1092 | A write, a cork, a write and `end`: the last chunk comes before the second data |
| `HttpFraming.DroppedDataEnds` | lib/_http_outgoing.js:948-961 | A string whose bytes are all dropped by its encoding is sent as the last chunk |
| `HttpFraming.OverstatedData` | lib/_http_outgoing.js:953-966 | A chunk whose byte length is estimated one or two too high cannot be read, whatever chunk follows it |
| `HttpFraming.EstimatesBreak` | lib/buffer.js:647-740 | Two such strings: "aGVs", a line end and "bG8=" in base64, and "zz" in hexadecimal |
| `HttpFraming.EndAnnounces` | lib/_http_outgoing.js:500-1092 | A response ended with its first data is its header, which begins with the caller's text, and that data, and the number on the last line of the header, read off its bytes, is the number of bytes after it if and only if their byte length is right |
| `HttpFraming.RunDone` | lib/_http_outgoing.js:893-909 | After `end` no call sends anything |
| `HttpPipeline.StepSettled` | lib/_http_outgoing.js:1029-1106 | Every call keeps that a finished response has sent all it will ever send |
| `HttpPipeline.InRequestOrder` | lib/_http_server.js:1014-1156 | In every run the wire is the whole streams of the finished responses in request order and then what the oldest unfinished one has made; later ones have all theirs in their queues |
| `HttpPipeline.InterleavingLeavesNoTrace` | lib/_http_server.js:1014-1156 | Runs that differ only in how the handlers interleave write the same bytes |
| `HttpReading.ReadFurther` | lib/_http_outgoing.js:948-1092 | A reader of chunks does not look past the end of a message, whatever follows it |
| `HttpReading.StoredLines` | lib/_http_outgoing.js:397-532 | A stored header begins with the caller's text; its lines are the caller's, then the added ones |
| `HttpReading.RunStores` | lib/_http_outgoing.js:397-545 | In every run the stored header is the one for the head of the first call whose head could be stored, and no later call changes it |
| `HttpReading.WrittenData` | lib/_http_outgoing.js:843-950 | A message in chunks takes all the data given from that call on |
| `HttpReading.RunTrailers` | lib/_http_outgoing.js:979-1012 | The trailers of a message are those given last |
| `HttpReading.ResponseReads` | lib/_http_outgoing.js:397-1106 | A response sent in chunks reads, in front of whatever follows it, as the lines of the head that its handler gave with the added ones behind them, the data it was given from there on, and the trailers it was given last; the header begins with that head's text |
| `HttpReading.ClientReads` | lib/_http_server.js:1014-1156 | From the wire of a run whose responses have all finished, each sent in chunks and soundly, a client reads one answer per request, in order, each with the head, the data and the trailers that its handler gave, and nothing else |
| `HttpPlain.PlainMessage` | lib/_http_outgoing.js:843-1106 | Every response that ends without chunks, whatever calls made it, is its header, with the lines of its handler's head, and the data given from there on, or no data where the request or the status allows none |
| `HttpClosing.ConnectionTold` | lib/_http_outgoing.js:467-511 | A `Connection` field is added exactly when the caller leaves it to the response; it says "close" exactly when the connection closes afterwards, except for a body whose end the caller took away |
| `HttpClosing.RemovedNotAdded` | lib/_http_outgoing.js:467-806 | A field that the caller has removed is not added |
| `HttpClosing.OwnKeepAlive` | lib/_http_outgoing.js:476-606 | A caller who gives a `Keep-Alive` field gets no other |
| `HttpClosing.NoChunksWithoutBody` | lib/_http_outgoing.js:458-511 | Chunks announced for a 204 or 304 response are not sent, and the connection closes and says so |
| `HttpClosing.TrailersNeedChunks` | lib/_http_outgoing.js:513-526 | A head that announces trailers is stored only for a message in chunks; any other head is stored |
| `HttpClosing.UntoldLength` | lib/_http_server.js:199-212 | Without a length a client that takes chunks gets them, to any other the connection closes after the body, and a HEAD request gets no body |
| `HttpClosing.ClosesAfterLast` | lib/_http_server.js:1014-1070 | In every run the connection is closing exactly when the newest finished response is marked last, and none before it is |
| `HttpSamples.EndAtOnce` | lib/_http_outgoing.js:397-1106 | The bytes of `end('x')` as the first call, with a length |
| `HttpSamples.HeadThenEnd` | lib/_http_outgoing.js:397-1106 | The bytes of `writeHead` and `end('x')`, in chunks |
| `HttpSamples.LimitedLine` | lib/_http_outgoing.js:476-486 | The `Keep-Alive` line for a timeout in milliseconds and a limit on requests, and when there is none |
| `HttpSamples.HeaderGoes` | lib/_http_outgoing.js:341-365 | The header goes with the first call that flushes it, brings an `Expect` field or writes, and in front of everything else |
| `HttpObjects.Response.SendData` | lib/_http_outgoing.js:341-364 | `_send` hands on the header once, before the first data, whether in the same string or in front of the queue |
| `HttpObjects.Response.WriteRaw` | lib/_http_outgoing.js:367-393 | `_writeRaw` flushes and writes for the owner of the socket and queues for others; the queue's count stays exact |
| `HttpObjects.Response.FlushOutput` | lib/_http_outgoing.js:1154-1177 | Flushing moves the queue to the wire in order and takes its size off the connection's count |
| `HttpObjects.Response.Uncork` | lib/_http_outgoing.js:265-298 | The sends of `uncork` are together the one chunk of the specification |
| `HttpObjects.Response.StoreHeader` | lib/_http_outgoing.js:397-545 | The header and flags that `_storeHeader` stores, or none; HttpReading.StoredLines says what is in them |
| `HttpObjects.Response.Write` | lib/_http_outgoing.js:887-972 | `write` changes the response and hands on bytes as the specification says, header included |
| `HttpObjects.Response.End` | lib/_http_outgoing.js:1029-1106 | The same for `end`, with its last data, last chunk and forced uncork |
| `HttpObjects.Response.Do` | lib/_http_outgoing.js:258-298 | Every call of a handler keeps the response's invariant and is the specified step |
| `HttpObjects.Response.AssignSocket` | lib/_http_server.js:291-300 | All that was queued goes out when the response gets the socket |
| `HttpObjects.Connection.Call` | lib/_http_server.js:802-805 | A handler's call keeps that each queue is counted exactly, that the connection's count is the sum, and that `incoming` and `outgoing` are the requests from the owner's on and the responses behind it; it is the step of the state machine |
| `HttpObjects.Connection.OnIncoming` | lib/_http_server.js:1084-1156 | A new request keeps the same and is the step of the state machine |
| `HttpObjects.Connection.OnFinish` | lib/_http_server.js:1014-1067 | A finished response keeps the same: its socket goes to the next response, which flushes, or is closed or idle |
| `AgentPool.RunInv` | lib/_http_agent.js:138-408 | After any run under any limits the total is the number of sockets in both tables, no socket is anywhere twice, each origin is within its limit, no stored queue is empty and nobody waits while a socket of the origin is free; the total is at most one over its limit |
| `AgentPool.StepOverTheLimit` | lib/_http_agent.js:138-201 | From a pool within its limits an event takes the total over `maxTotalSockets` if and only if a writable socket becomes free, nobody of its origin waits, it may be kept, the total is at its limit and the first origin in line has no socket |
| `AgentPool.LimitKept` | lib/_http_agent.js:138-408 | A run never goes over the limit if and only if no event of it is of that kind |
| `AgentRuns.OverTheLimit` | lib/_http_agent.js:186-200 | A run whose total goes over its limit by one |
| `AgentPool.RunFull` | lib/_http_agent.js:292-361 | Without a total limit whoever waits does so because the origin has exactly `maxSockets` sockets in use |
| `AgentScheduling.RunIdle` | lib/_http_agent.js:172-205 | In every run the free sockets of an origin stand in the order in which they were put aside, each writable and kept alive, at most `maxFreeSockets`, and none without `keepAlive` |
| `AgentScheduling.AddGives` | lib/_http_agent.js:292-361 | A request gets the free socket put aside first under "fifo" and last under "lifo", else a new one if both limits allow it, else it waits behind all others |
| `AgentScheduling.FreeGives` | lib/_http_agent.js:138-205 | A used socket goes to the request that has waited longest, else it is put aside exactly under the stated conditions, else it is in neither list |
| `AgentScheduling.RunOwn` | lib/_http_agent.js:138-361 | Every request is given a socket made for its origin |
| `AgentPool.ServedOnce` | lib/_http_agent.js:138-361 | Under any limits every request is served exactly once or waits exactly once |
| `AgentPool.FirstComeFirstServed` | lib/_http_agent.js:292-361 | Requests of an origin are served in arrival order if and only if none comes while others wait and both limits allow a socket |
| `AgentPool.NeverOvertaken` | lib/_http_agent.js:325-361 | Without a total limit that never happens |
| `AgentOvertaking.StepOpens` | lib/_http_agent.js:491-548 | From a state in which no newcomer could be served before those who wait an event leads to one in which one could if and only if it takes out a socket of an origin where nobody waits, the first origin in line has a socket, and some origin waits for the total alone |
| `AgentOvertaking.RunOpens` | lib/_http_agent.js:138-548 | All through a run no newcomer could be served first if and only if no event of it is of that kind |
| `AgentOvertaking.OrderKept` | lib/_http_agent.js:292-361 | In such a run every origin has its requests served in arrival order |
| `AgentRuns.OvertakingHappens` | lib/_http_agent.js:508-526 | A run under a total limit in which a newcomer is served first |
| `AgentPool.ParkedThenRefill` | lib/_http_agent.js:193-200 | Keeping a free socket and serving another origin commute |
| `AgentObjects.Agent.AddRequest` | lib/_http_agent.js:292-361 | `addRequest` on the tables is the step of the state machine |
| `AgentObjects.Agent.CreateSocket` | lib/_http_agent.js:363-408 | A socket made at once is counted and listed for its origin |
| `AgentObjects.Agent.OnFree` | lib/_http_agent.js:138-201 | The `free` handler, which a new socket enters again from `removeSocket`, is the step of the state machine |
| `AgentObjects.Agent.OnClose` | lib/_http_agent.js:456-463 | The same for the `close` handler |
| `AgentObjects.Agent.RemoveSocket` | lib/_http_agent.js:491-548 | Taking a socket out and giving a waiting request a new one is what the specification says |
| `AgentObjects.Agent.Splice` | lib/_http_agent.js:500-513 | One table without the socket, and without the key when its list is empty |
| `Realpath.RealIsClean` | lib/fs.js:2741-2821 | What is returned is a normal path and no part of it is a link |
| `Realpath.RealpathLaws` | lib/fs.js:2697-2825 | The result is normal, free of links and its own real path, whatever the working directory |
| `Realpath.MoreLinks` | lib/fs.js:2741-2821 | A larger allowance of links changes nothing but the outcome that it was too small |
| `Realpath.RoundsAreTheWalk` | lib/fs.js:2741-2821 | Where every ".." of a link leaves an entry that is there and no link, starting over at each link ends where the kernel's walk ends, after as many links; a failing `stat` ends it only where the kernel fails too |
| `RealpathStats.StatsDecide` | lib/fs.js:2697-2800 | A call ends at the first link it asks `stat` for whose `stat` fails, and otherwise as if every `stat` succeeded |
| `RealpathStats.AskedOnce` | lib/fs.js:2697-2800 | It asks for no link twice |
| `Realpath.RealpathIsTheWalk` | lib/fs.js:2697-2825 | The same for the call, from a text and a working directory; the text may lead through links |
| `Realpath.UpsFirstLinks` | lib/fs.js:2800-2800 | File systems whose link targets have their ".." in front are of that kind |
| `RealpathTexts.TextsAlike` | lib/fs.js:2697-2825 | From the root `realpathSync` of a text is the kernel's walk of it on every file system of that kind if and only if no ".." of the text comes after a name |
| `RealpathTexts.OtherFile` | lib/fs.js:2697-2825 | For every other text, a file system with one link on which the two end in different files |
| `Realpath.Elsewhere` | lib/fs.js:2800-2813 | A ".." that leaves a link: the result is another file than the one the kernel opens |
| `Realpath.Forever` | lib/fs.js:2788-2813 | The same can make the loop follow links without end where the kernel follows two |
| `RealpathLoops.SplitRoot` | lib/fs.js:2653-2659 | The separators in front, and no more |
| `RealpathLoops.NextPart` | lib/fs.js:2741-2754 | Cutting the text at the next separator is taking the next part of the path |
| `RealpathLoops.RealpathSync` | lib/fs.js:2697-2825 | The loop over positions in the text computes the specified path or error |
| `EventIterator.RunKept` | lib/events.js:1060-1198 | After every run the two queues hold exactly the events without a call and the calls without an event |
| `EventIterator.Answers` | lib/events.js:1069-1098 | In every interleaving call number k gets event number k, the first call beyond the events the error, later ones the end; the queues are never both non-empty |
| `EventIterator.FailKept` | lib/events.js:1181-1186 | An error goes to the first call beyond the events, whether that waits or comes later; one that is not truthy is lost unless a call waits |
| `EventIterator.FalsyErrorLost` | lib/events.js:1083-1087 | The input: an error and then a call, which gets the error if it is truthy and the end if not |
| `EventIterator.RunLevel` | lib/events.js:1071-1078 | The emitter runs with at most `high` queued and is paused with at least `low` |
| `EventIterator.WatermarksHold` | lib/events.js:1071-1078 | That holds in all runs if and only if `low` is at most one above `high` |
| `EventIterator.PausedExactly` | lib/events.js:1071-1176 | The emitter is paused exactly when an event brought the queue above the high mark and no call since brought it below the low one |
| `EventIteratorObject.OnIterator.Next` | lib/events.js:1069-1098 | `next` on the closure's variables is the step of the state machine |
| `EventIteratorObject.OnIterator.EventHandler` | lib/events.js:1170-1179 | The same for an event |
| `EventIteratorObject.OnIterator.ErrorHandler` | lib/events.js:1181-1186 | The same for an error |
| `EventIteratorObject.OnIterator.CloseHandler` | lib/events.js:1188-1198 | The loop settles every waiting promise as done |
| `Emitter.AtMostOnce` | lib/events.js:617-634 | Whatever listeners do during an emit, nested emits included, what `once` added is called at most once |
| `EmitterRuns.EmitCallsSnapshot` | lib/events.js:502-532 | Every emit of a name with listeners makes one copy of their list as the table has it then; it reaches the listeners of that copy in order and calls each there and then, except for wrappers of `once` that had fired; one that has returned has reached all, and every call is made by some emit |
| `EmitterRuns.OnceGone` | lib/events.js:617-634 | In a run in which `on` is given functions only, no listener added by `once` that has been called is in any list |
| `EmitterRuns.OffUndoesOnce` | lib/events.js:627-720 | Removing the function undoes `once` as it undoes `on` |
| `EmitterRuns.StepLists` | lib/events.js:536-778 | What each step does to the list of each name: nothing to the other names, and only removals during calls |
| `Emitter.RemovesLast` | lib/events.js:697-718 | Removing takes out the last match, wrapped or not, and nothing else |
| `Emitter.RemoveUndoesAdd` | lib/events.js:536-720 | Removing undoes adding at the end; it undoes adding in front if and only if only the listener itself stands before its last match |
| `EmitterObject.EventEmitter.AddListener` | lib/events.js:536-591 | The compact table is the list with the listener at the end or in front, compact again, and counted |
| `EmitterObject.EventEmitter.RemoveListener` | lib/events.js:669-720 | The same for removing the last match |
| `EmitterObject.EventEmitter.RemoveAllListeners` | lib/events.js:732-778 | The same for removing a name or everything |
| `EmitterObject.EventEmitter.CallListener` | lib/events.js:617-625 | The next call of the innermost emit is the step of the state machine |
| `Connect.FirstsFacts` | lib/net.js:1462-1486 | The addresses of a family are all its usable ones, each text once |
| `Connect.FirstsInOrder` | lib/net.js:1465-1486 | A family's list is its usable answers in the order they came, without repetitions, and nothing else |
| `Connect.WeaveKeeps` | lib/net.js:1503-1513 | Alternating keeps the order of each family and loses no address |
| `Connect.WeaveAlternates` | lib/net.js:1503-1513 | Where each address of the two lists stands |
| `Connect.RunInOrder` | lib/net.js:1118-1220 | Addresses are tried in order and once; all handles but the latest are closed; a run has at most as many events as addresses and ends in a connection with one error per address before it, or, uncancelled, in one error per address |
| `ConnectObjects.SortOut` | lib/net.js:1462-1486 | The loop over the answers collects the two families, that of the first usable answer first |
| `ConnectObjects.Alternate` | lib/net.js:1503-1513 | The loop takes one address of each family in turn |
| `ConnectObjects.Context.InternalConnectMultiple` | lib/net.js:1118-1220 | Starting attempts until one gets under way is the step of the state machine |
| `ConnectObjects.Context.AfterConnectMultiple` | lib/net.js:1691-1731 | The same for a completion |
| `ConnectObjects.Context.InternalConnectMultipleTimeout` | lib/net.js:1733-1744 | The same for a timeout |
| `BufferPool.SlicesSafe` | lib/buffer.js:167-185 | For any calls, with whole or broken sizes, and any pool sizes up to 2^32 - 8 in between, every slice lies in its pool at a multiple of 8, apart from every other; with whole pool sizes from 0 to 2^31 no call throws |
| `BufferPlaces.LengthsAsked` | lib/buffer.js:460-500 | In every run a string's buffer is never longer than the bytes written and just as long when all of them were; any other has the size asked for |
| `BufferPlaces.RunPlaces` | lib/buffer.js:170-500 | In every run with whole sizes and settings up to 2^31, what is smaller than half a pool is cut from the last pool at the first multiple of 8 after the slice before, if the reserved bytes fit there, else from the start of a new pool; anything else is not pooled |
| `BufferPlaces.NextAfterString` | lib/buffer.js:179-500 | In every run with settings up to 2^31, the next slice in the pool of a string starts at the first multiple of 8 after the string |
| `BufferPlaces.FirstString` | lib/buffer.js:475-500 | The first pooled string, "abc", has three bytes |
| `BufferPool.SafeUpTo` | lib/buffer.js:167-185 | With pool sizes up to a bound, slices are safe in all runs if and only if the bound is at most 2^32 - 8 |
| `BufferPool.NothingThrows` | lib/buffer.js:167-500 | With whole pool sizes between two bounds around the initial one, no call throws in any run if and only if the bounds are within 0 and 2^31 |
| `BufferPool.BelowZeroThrows` | lib/buffer.js:170-176 | A pool size of -1, with which a new pool cannot be made |
| `BufferPool.FractionThrows` | lib/buffer.js:475-500 | A pool size of 8192.5, with which a string that seems to fit does not |
| `BufferPool.FailsBeyond31` | lib/buffer.js:179-185 | At 2^31 + 1 an offset becomes negative and pooled calls fail |
| `BufferPool.OverlapsBeyondLargest` | lib/buffer.js:179-185 | At 2^32 - 7 an offset starts over and two slices share bytes |
| `BufferPool.Pools.AlignPool` | lib/buffer.js:179-185 | The 32-bit operations compute the specified offset |
| `BufferPool.Pools.Allocate` | lib/buffer.js:460-473 | `allocate` is the step of the state machine |
| `BufferPool.Pools.FromStringFast` | lib/buffer.js:475-500 | The same for a string; BufferPlaces.LengthsAsked says how long its buffer is |

## Left out

- `toASCII`, `toUnicode` and `mapDomain` of lib/punycode.js.
- Punycode.RoundTripPoints: for lists of at most 2^31 - 1 code points, which is more than an array can hold.
- PunycodeVarInt.ComputeAdapt: the floor of a quotient of small integers is taken as exact.
- Windows paths beyond `normalizeString`, and `parse`, `format`, `basename`, `dirname`, `extname` and `matchesGlob`.
- The working directory of path functions is a parameter, normalized and absolute.
- Separators of more than one code unit in query strings, where `parse` does not retry a partial match.
- The conversion of a buffer to a string is a binding; it is UTF-8 decoding here, with U+FFFD for each maximal part of an ill-formed sequence. A custom decoder is any function.
- QueryStringRoundTrip.RoundTrip: for the default decoder, keys given once, and separators that escaping never leaves in a text; QueryStringTexts.DefaultOptions says that "&" and "=" are such.
- `encodeStr`, which `escape` calls, is a function on code units here and not a loop; so is `decodeURIComponent`.
- Keys of a stringified object are given as a list of own keys in order; numbers and booleans are strings already.
- The socket of an HTTP connection is a byte sequence with a writable flag: its corking, backpressure, `pause`, `drain` events and destruction by errors are not part of this model.
- Interim responses (100, 102, 103), upgrades, `CONNECT`, `Expect` handling, `strictContentLength`, `rejectNonStandardBodyWrites`, timeouts, callbacks and diagnostics of the HTTP server.
- Header text is given as serialized by the caller; which framing fields are in it is part of the input.
- HttpFraming.ChunkedMessage: where an estimate of a byte length is more than two too high and the data after it begins with a carriage return, a reader can meet line ends in that data by chance.
- HttpReading.ClientReads: for responses in chunks, each of which ends clean; the client reads no lengths. The bytes of all other responses are HttpPlain.PlainMessage.
- HttpObjects.Connection.OnIncoming: no request comes after a response marked last has finished.
- HttpObjects.Response.SendChunk is the four sends that `write_` has in line.
- A socket of the agent is made at once and never fails; a destroyed socket's `close` comes before anything else happens, so the loop of `addRequest` over destroyed free sockets never finds one and is not there.
- Tunnels, timeouts of free sockets, `agentRemove`, `destroy` and the key log of the agent.
- Realpath.RealpathOf: the number of links that may be followed is a parameter, because the loop of the original need not end (Realpath.Forever); the outcome `TooMany` stands for a call that has not returned.
- Realpath.RealpathIsTheWalk: on a given file system one direction, because a text whose ".." leaves a link can end in the same place by chance; RealpathTexts.TextsAlike has both for all file systems.
- The cache of `realpathSync`, pipes and sockets on the way, Windows roots and result encodings.
- `throw` of the event iterator, abort signals, and emits that go on while they close the iterator.
- Listeners for `newListener` and `removeListener`, the listener limit warning, captured rejections, and an emitter without a table.
- An emit is the list it copied and its index in it, and what listeners do are steps in between; their arguments and results, and the `error` event without a listener, are not part of this model.
- A single address, which is connected to without alternatives; aborting or destroying the socket during a connect, and what listeners do then; the branch for a late success, which a timeout makes impossible by dropping the request's callback.
- The bytes written into pooled buffers, `Buffer.concat` and `_copyActual`, and the largest buffer the engine allows.
- BufferPlaces.RunPlaces: for whole sizes and settings up to 2^31; a size with a fraction can leave the offset between two bytes.
- `fromArrayLike` is BufferPool.Allocated for the object's length. Sizes are real numbers: `NaN`, infinities and the rounding of sums are not part of this model.
