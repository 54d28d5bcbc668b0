/**
 * The chunked transfer coding: what lib/_http_outgoing.js writes for a piece of
 * body, and a reader that follows section 7.1 of RFC 9112 (no chunk extensions).
 */
module HttpChunked {
  import opened CodeUnits
  import opened Results

  type Bytes = seq<Byte>

  const CR: Byte := 13
  const LF: Byte := 10
  const CRLF: Bytes := [13, 10]

  // ------------------------------------------------------------------- writing

  function HexDigit(d: nat): (b: Byte)
    requires d < 16
    ensures IsHex(b) && HexValue(b) == d
  {
    if d < 10 then 0x30 + d else 0x61 + d - 10
  }

  /** `n.toString(16)`. */
  function Hex(n: nat): (s: Bytes)
    ensures |s| > 0
  {
    if n < 16 then [HexDigit(n)] else Hex(n / 16) + [HexDigit(n % 16)]
  }

  /** A chunk as it is written: a size, data, and the line ends. */
  function Sized(size: nat, data: Bytes): Bytes {
    Hex(size) + CRLF + data + CRLF
  }

  /** A chunk whose size is that of its data. */
  function Frame(data: Bytes): Bytes {
    Sized(|data|, data)
  }

  function Frames(parts: seq<Bytes>): Bytes {
    if parts == [] then [] else Frame(parts[0]) + Frames(parts[1..])
  }

  function Lines(lines: seq<Bytes>): Bytes {
    if lines == [] then [] else lines[0] + CRLF + Lines(lines[1..])
  }

  /** The last chunk with the trailer section. */
  function LastFrame(trailers: seq<Bytes>): Bytes {
    [0x30] + CRLF + Lines(trailers) + CRLF
  }

  function Concat(parts: seq<Bytes>): Bytes {
    if parts == [] then [] else parts[0] + Concat(parts[1..])
  }

  // ------------------------------------------------------------------- reading

  /** The hexadecimal number that `s` goes on with after digits worth `acc`, and what follows it. */
  function ReadSize(s: Bytes, acc: nat): (r: (nat, Bytes))
    ensures |r.1| <= |s|
  {
    if s == [] || !IsHex(s[0]) then (acc, s) else ReadSize(s[1..], acc * 16 + HexValue(s[0]))
  }

  predicate StartsLine(s: Bytes) {
    |s| >= 2 && s[0] == CR && s[1] == LF
  }

  /** The text up to the first line end, and what follows that. */
  function ReadLine(s: Bytes): (r: Option<(Bytes, Bytes)>)
    ensures r.Some? ==> |r.value.1| < |s|
  {
    if s == [] then None
    else if StartsLine(s) then Some(([], s[2..]))
    else
      var r := ReadLine(s[1..]);
      if r.None? then None else Some(([s[0]] + r.value.0, r.value.1))
  }

  /** The lines up to an empty one, and what follows it. */
  function ReadLines(s: Bytes): (r: Option<(seq<Bytes>, Bytes)>)
    ensures r.Some? ==> |r.value.1| < |s|
    decreases |s|
  {
    var line := ReadLine(s);
    if line.None? then None
    else if line.value.0 == [] then Some(([], line.value.1))
    else
      var r := ReadLines(line.value.1);
      if r.None? then None else Some(([line.value.0] + r.value.0, r.value.1))
  }

  /** What a reader makes of a chunked message: its body, its trailers, and what follows the message. */
  datatype Message = Message(body: Bytes, trailers: seq<Bytes>, rest: Bytes)

  function Read(s: Bytes): Option<Message>
    decreases |s|
  {
    if s == [] || !IsHex(s[0]) then None
    else
      var (size, rest) := ReadSize(s[1..], HexValue(s[0]));
      if !StartsLine(rest) then None
      else if size == 0 then
        var lines := ReadLines(rest[2..]);
        if lines.None? then None else Some(Message([], lines.value.0, lines.value.1))
      else if |rest| < 2 + size || !StartsLine(rest[2 + size..]) then None
      else AddBody(rest[2..2 + size], Read(rest[2 + size + 2..]))
  }

  function AddBody(data: Bytes, r: Option<Message>): Option<Message> {
    if r.None? then None else Some(r.value.(body := data + r.value.body))
  }

  // ------------------------------------------------------------ the two together

  /** Digits read one after the other: the number read so far is shifted and the new one added. */
  function Shift(acc: nat, n: nat): nat
    decreases n
  {
    if n < 16 then acc * 16 + n else Shift(acc, n / 16) * 16 + n % 16
  }

  lemma {:induction false} ReadSizeAppend(s: Bytes, acc: nat, b: Byte, tail: Bytes, m: nat)
    requires IsHex(b) && ReadSize(s + ([b] + tail), acc) == ReadSize([b] + tail, m)
    ensures ReadSize(s + [b] + tail, acc) == ReadSize(tail, m * 16 + HexValue(b))
  {
    assert s + [b] + tail == s + ([b] + tail);
    assert ([b] + tail)[1..] == tail;
  }

  lemma {:induction false} ReadHexThen(n: nat, acc: nat, rest: Bytes)
    ensures ReadSize(Hex(n) + rest, acc) == ReadSize(rest, Shift(acc, n))
    decreases n
  {
    if n < 16 {
      assert (Hex(n) + rest)[1..] == rest;
    } else {
      var b := HexDigit(n % 16);
      ReadHexThen(n / 16, acc, [b] + rest);
      ReadSizeAppend(Hex(n / 16), acc, b, rest, Shift(acc, n / 16));
    }
  }

  lemma {:induction false} ShiftZero(n: nat)
    ensures Shift(0, n) == n
    decreases n
  {
    if n >= 16 { ShiftZero(n / 16); }
  }

  /** A size reads back; the first digit is looked at on its own. */
  lemma ReadHex(n: nat, tail: Bytes)
    requires tail == [] || !IsHex(tail[0])
    ensures var s := Hex(n) + tail; IsHex(s[0]) && ReadSize(s[1..], HexValue(s[0])) == (n, tail)
  {
    ReadHexThen(n, 0, tail);
    ShiftZero(n);
    HexStarts(n);
  }

  lemma {:induction false} HexStarts(n: nat)
    ensures IsHex(Hex(n)[0])
    decreases n
  {
    if n >= 16 { HexStarts(n / 16); }
  }

  /** A reader takes a frame's data and goes on after it. */
  lemma ReadFrame(data: Bytes, tail: Bytes)
    requires data != []
    ensures Read(Frame(data) + tail) == AddBody(data, Read(tail))
  {
    hide Hex, HexValue, IsHex, ReadSize, Read, StartsLine;
    var rest := CRLF + data + CRLF + tail;
    var s := Frame(data) + tail;
    assert s == Hex(|data|) + rest;
    LineFirst(data + CRLF + tail);
    assert rest == CRLF + (data + CRLF + tail);
    ReadHex(|data|, rest);
    LineFirst(tail);
    assert rest[2 + |data|..] == CRLF + tail;
    ReadChunk(s, |data|, rest);
    assert rest[2..2 + |data|] == data;
    assert rest[2 + |data| + 2..] == tail;
  }

  lemma LineFirst(tail: Bytes)
    ensures StartsLine(CRLF + tail) && !IsHex((CRLF + tail)[0])
  {
  }

  lemma ReadChunk(s: Bytes, size: nat, rest: Bytes)
    requires s != [] && IsHex(s[0]) && ReadSize(s[1..], HexValue(s[0])) == (size, rest)
    requires 0 < size <= |rest| - 2 && StartsLine(rest) && StartsLine(rest[2 + size..])
    ensures |rest| >= 2 + size + 2
    ensures Read(s) == AddBody(rest[2..2 + size], Read(rest[2 + size + 2..]))
  {
    hide HexValue, IsHex, ReadSize, ReadLines;
  }

  lemma {:induction false} ReadFrames(parts: seq<Bytes>, tail: Bytes)
    requires forall i :: 0 <= i < |parts| ==> parts[i] != []
    ensures Read(Frames(parts) + tail) == AddBody(Concat(parts), Read(tail))
    decreases |parts|
  {
    if parts == [] {
      assert Frames(parts) + tail == tail;
      AddNothing(Read(tail));
    } else {
      var rest := Frames(parts[1..]) + tail;
      assert Frames(parts) + tail == Frame(parts[0]) + rest;
      ReadFrame(parts[0], rest);
      ReadFrames(parts[1..], tail);
      AddTwice(parts[0], Concat(parts[1..]), Read(tail));
    }
  }

  lemma AddNothing(r: Option<Message>)
    ensures AddBody([], r) == r
  {
    if r.Some? { assert [] + r.value.body == r.value.body; }
  }

  lemma AddTwice(a: Bytes, b: Bytes, r: Option<Message>)
    ensures AddBody(a, AddBody(b, r)) == AddBody(a + b, r)
  {
    if r.Some? { assert a + (b + r.value.body) == a + b + r.value.body; }
  }

  /** A trailer line: not empty, no line end in it. */
  predicate IsLine(line: Bytes) {
    line != [] && forall k :: 0 <= k < |line| ==> line[k] != CR && line[k] != LF
  }

  lemma {:induction false} ReadLineOf(line: Bytes, tail: Bytes)
    requires forall k :: 0 <= k < |line| ==> line[k] != CR
    ensures ReadLine(line + CRLF + tail) == Some((line, tail))
    decreases |line|
  {
    var s := line + CRLF + tail;
    if line == [] {
      assert s[2..] == tail;
    } else {
      assert s[1..] == line[1..] + CRLF + tail;
      ReadLineOf(line[1..], tail);
      assert [line[0]] + line[1..] == line;
    }
  }

  lemma {:induction false} ReadLinesOf(lines: seq<Bytes>, tail: Bytes)
    requires forall i :: 0 <= i < |lines| ==> IsLine(lines[i])
    ensures ReadLines(Lines(lines) + CRLF + tail) == Some((lines, tail))
    decreases |lines|
  {
    if lines == [] {
      var nothing: Bytes := [];
      ReadLineOf(nothing, tail);
      assert Lines(lines) + CRLF + tail == nothing + CRLF + tail;
    } else {
      var rest := Lines(lines[1..]) + CRLF + tail;
      assert Lines(lines) + CRLF + tail == lines[0] + CRLF + rest;
      ReadLineOf(lines[0], rest);
      ReadLinesOf(lines[1..], tail);
      assert [lines[0]] + lines[1..] == lines;
    }
  }

  lemma ReadLastFrame(trailers: seq<Bytes>, tail: Bytes)
    requires forall i :: 0 <= i < |trailers| ==> IsLine(trailers[i])
    ensures Read(LastFrame(trailers) + tail) == Some(Message([], trailers, tail))
  {
    hide ReadLines, Lines;
    var rest := CRLF + Lines(trailers) + CRLF + tail;
    var s := LastFrame(trailers) + tail;
    assert s == [0x30] + rest && s[1..] == rest;
    assert ReadSize(rest, 0) == (0, rest);
    assert rest[2..] == Lines(trailers) + CRLF + tail;
    ReadLinesOf(trailers, tail);
  }

  /** A whole message, and what follows it. */
  lemma ReadMessage(parts: seq<Bytes>, trailers: seq<Bytes>, tail: Bytes)
    requires forall i :: 0 <= i < |parts| ==> parts[i] != []
    requires forall i :: 0 <= i < |trailers| ==> IsLine(trailers[i])
    ensures Read(Frames(parts) + LastFrame(trailers) + tail) == Some(Message(Concat(parts), trailers, tail))
  {
    hide Read, Frames, LastFrame, Concat;
    assert Frames(parts) + LastFrame(trailers) + tail == Frames(parts) + (LastFrame(trailers) + tail);
    ReadFrames(parts, LastFrame(trailers) + tail);
    ReadLastFrame(trailers, tail);
    assert Concat(parts) + [] == Concat(parts);
  }

  lemma {:induction false} FramesSplit(parts: seq<Bytes>, k: nat)
    requires k < |parts|
    ensures Frames(parts) == Frames(parts[..k]) + (Frame(parts[k]) + Frames(parts[k + 1..]))
  {
    hide Frame;
    if k == 0 {
      assert parts[..0] == [];
      NoFrames();
    } else {
      FramesSplit(parts[1..], k - 1);
      assert parts[1..][..k - 1] == parts[..k][1..] && parts[1..][k..] == parts[k + 1..];
    }
  }

  lemma NoFrames()
    ensures Frames([]) == []
  {
  }

  /** An empty chunk among the others is the last one to a reader, who stops there. */
  lemma {:induction false} ReadToEmpty(parts: seq<Bytes>, tail: Bytes) returns (k: nat)
    requires [] in parts
    ensures k < |parts| && [] !in parts[..k]
    ensures Read(Frames(parts) + tail) == Some(Message(Concat(parts[..k]), [], Frames(parts[k + 1..]) + tail))
  {
    hide Read, Frames, Concat, Frame, LastFrame;
    k := FirstEmpty(parts);
    var before, rest := parts[..k], Frames(parts[k + 1..]) + tail;
    FramesSplit(parts, k);
    assert Frames(parts) + tail == Frames(before) + (Frame([]) + rest);
    ReadFrames(before, Frame([]) + rest);
    EmptyIsLast();
    ReadLastFrame([], rest);
    assert Concat(before) + [] == Concat(before);
  }

  lemma FirstEmpty(parts: seq<Bytes>) returns (k: nat)
    requires [] in parts
    ensures k < |parts| && parts[k] == [] && [] !in parts[..k]
  {
    k := 0;
    while parts[k] != []
      invariant k < |parts| && [] !in parts[..k] && [] in parts[k..]
      decreases |parts| - k
    {
      k := k + 1;
    }
  }

  lemma EmptyIsLast()
    ensures Frame([]) == LastFrame([])
  {
  }

  /**
   * Chunks, the last chunk, and perhaps something after it, read as the message
   * they were meant for when no chunk is empty and nothing comes after, and
   * leave something over when not.
   */
  lemma ReadsBack(parts: seq<Bytes>, trailers: seq<Bytes>, late: Bytes)
    requires forall i :: 0 <= i < |trailers| ==> IsLine(trailers[i])
    ensures var r := Read(Frames(parts) + LastFrame(trailers) + late);
            if [] !in parts && late == [] then r == Some(Message(Concat(parts), trailers, []))
            else r.Some? && r.value.rest != []
  {
    hide Read, Frames, LastFrame, Concat;
    if [] in parts {
      assert Frames(parts) + LastFrame(trailers) + late == Frames(parts) + (LastFrame(trailers) + late);
      var k := ReadToEmpty(parts, LastFrame(trailers) + late);
      LastNonEmpty(trailers);
      assert |Frames(parts[k + 1..]) + (LastFrame(trailers) + late)| > 0;
    } else {
      assert forall i :: 0 <= i < |parts| ==> parts[i] in parts;
      ReadMessage(parts, trailers, late);
    }
  }

  lemma LastNonEmpty(trailers: seq<Bytes>)
    ensures |LastFrame(trailers)| > 0
  {
  }

  /** A size that is one or two more than the data has: the reader takes the line end for data and finds no other. */
  lemma OverstatedBreaks(size: nat, data: Bytes, tail: Bytes)
    requires size == |data| + 1 || (size == |data| + 2 && tail != [] && IsHex(tail[0]))
    ensures Read(Sized(size, data) + tail) == None
  {
    hide Hex, HexValue, ReadSize, Read, StartsLine;
    var rest := CRLF + data + CRLF + tail;
    var s := Sized(size, data) + tail;
    assert s == Hex(size) + rest;
    ReadHex(size, rest);
    PastTheData(size, data, tail);
    NoLineAfter(s, size, rest);
  }

  /** No line end where the size says that the data ends. */
  lemma NoLineAfter(s: Bytes, size: nat, rest: Bytes)
    requires s != [] && IsHex(s[0]) && ReadSize(s[1..], HexValue(s[0])) == (size, rest)
    requires 0 < size <= |rest| - 2 && !StartsLine(rest[2 + size..])
    ensures Read(s) == None
  {
    hide HexValue, ReadSize, ReadLines, StartsLine;
  }

  lemma PastTheData(size: nat, data: Bytes, tail: Bytes)
    requires size == |data| + 1 || (size == |data| + 2 && tail != [] && IsHex(tail[0]))
    ensures var rest := CRLF + data + CRLF + tail; !StartsLine(rest[2 + size..])
  {
    var rest := CRLF + data + CRLF + tail;
    if size == |data| + 1 {
      assert rest[2 + size..] == [LF] + tail;
    } else {
      assert rest[2 + size..] == tail;
    }
  }
}
