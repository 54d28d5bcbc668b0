/**
 * Chunks whose announced size need not be the number of their bytes. The size
 * of a string is an estimate for some encodings, never too low.
 */
module HttpSized {
  import opened CodeUnits
  import opened Results
  import opened HttpChunked

  /** A chunk, with the size it is announced with. */
  datatype Part = Part(size: nat, bytes: Bytes)

  function Sent(parts: seq<Part>): Bytes {
    if parts == [] then [] else Sized(parts[0].size, parts[0].bytes) + Sent(parts[1..])
  }

  function BytesOf(parts: seq<Part>): Bytes {
    if parts == [] then [] else parts[0].bytes + BytesOf(parts[1..])
  }

  predicate Sound(p: Part) { p.size == |p.bytes| && p.bytes != [] }

  predicate AllSound(parts: seq<Part>) {
    forall i :: 0 <= i < |parts| ==> Sound(parts[i])
  }

  /** No size is too low. */
  predicate Estimates(parts: seq<Part>) {
    forall i :: 0 <= i < |parts| ==> parts[i].size >= |parts[i].bytes|
  }

  /**
   * Where a size is more than two too high, the data after that chunk, in chunks
   * or held back, does not begin like the line end of the chunk.
   */
  predicate Clear(parts: seq<Part>, held: Bytes) {
    forall i :: 0 <= i < |parts| ==>
      parts[i].size <= |parts[i].bytes| + 2 || NoLineEnd(BytesOf(parts[i + 1..]) + held)
  }

  predicate NoLineEnd(data: Bytes) { data == [] || data[0] != CR }

  function Datas(parts: seq<Part>): (r: seq<Bytes>)
    ensures |r| == |parts| && forall i :: 0 <= i < |parts| ==> r[i] == parts[i].bytes
  {
    seq(|parts|, i requires 0 <= i < |parts| => parts[i].bytes)
  }

  lemma {:induction false} SentSplit(parts: seq<Part>, k: nat)
    requires k < |parts|
    ensures Sent(parts) == Sent(parts[..k]) + (Sized(parts[k].size, parts[k].bytes) + Sent(parts[k + 1..]))
    ensures BytesOf(parts) == BytesOf(parts[..k]) + (parts[k].bytes + BytesOf(parts[k + 1..]))
  {
    hide Sized;
    if k == 0 {
      assert parts[..0] == [];
      NothingSent();
    } else {
      SentSplit(parts[1..], k - 1);
      assert parts[1..][..k - 1] == parts[..k][1..] && parts[1..][k..] == parts[k + 1..];
    }
  }

  lemma NothingSent()
    ensures Sent([]) == [] && BytesOf([]) == []
  {
  }

  lemma {:induction false} SoundSent(parts: seq<Part>)
    requires AllSound(parts)
    ensures Sent(parts) == Frames(Datas(parts)) && BytesOf(parts) == Concat(Datas(parts)) && [] !in Datas(parts)
  {
    hide Sized;
    if parts != [] {
      SoundSent(parts[1..]);
      assert Datas(parts)[1..] == Datas(parts[1..]);
    }
  }

  lemma FirstUnsound(parts: seq<Part>) returns (k: nat)
    requires !AllSound(parts)
    ensures k < |parts| && !Sound(parts[k]) && AllSound(parts[..k])
  {
    k := 0;
    while Sound(parts[k])
      invariant k < |parts| && forall i :: 0 <= i < k ==> Sound(parts[i])
      decreases |parts| - k
    {
      k := k + 1;
    }
  }

  /** A size that is too high: the reader gives up, or takes the line end for data. */
  lemma OverRead(size: nat, data: Bytes, tail: Bytes)
    requires size > |data|
    ensures var r := Read(Sized(size, data) + tail);
            r.Some? ==> |r.value.body| > |data| && r.value.body[|data|] == CR
  {
    hide Hex, HexValue, ReadSize, Read, StartsLine, IsHex;
    var rest := CRLF + (data + CRLF + tail);
    var s := Sized(size, data) + tail;
    assert s == Hex(size) + rest;
    LineFirst(data + CRLF + tail);
    ReadHex(size, rest);
    assert rest[2 + |data|] == CR;
    BodyTaken(s, size, rest, |data|);
  }

  lemma BodyTaken(s: Bytes, size: nat, rest: Bytes, k: nat)
    requires s != [] && IsHex(s[0]) && ReadSize(s[1..], HexValue(s[0])) == (size, rest)
    requires k < size && 2 + k < |rest| && rest[2 + k] == CR
    ensures Read(s).Some? ==> |Read(s).value.body| > k && Read(s).value.body[k] == CR
  {
    hide HexValue, ReadSize, ReadLines, StartsLine, IsHex;
    if Read(s).Some? {
      assert rest[2..2 + size][k] == CR;
    }
  }

  lemma LastStarts(trailers: seq<Bytes>, late: Bytes)
    ensures var tail := LastFrame(trailers) + late; tail != [] && IsHex(tail[0])
  {
  }

  lemma {:induction false} SentStarts(parts: seq<Part>, tail: Bytes)
    requires tail != [] && IsHex(tail[0])
    ensures var s := Sent(parts) + tail; s != [] && IsHex(s[0])
  {
    hide Hex;
    if parts != [] { HexStarts(parts[0].size); }
  }

  /**
   * Chunks, the last chunk and perhaps something after it read back as the data,
   * held back or not, with nothing left, if and only if every size is right, no
   * chunk is empty and nothing comes after.
   */
  lemma {:induction false} SentReadsBack(parts: seq<Part>, held: Bytes, trailers: seq<Bytes>, late: Bytes)
    requires forall i :: 0 <= i < |trailers| ==> IsLine(trailers[i])
    requires Estimates(parts) && Clear(parts, held) && (late == [] ==> held == [])
    ensures Read(Sent(parts) + LastFrame(trailers) + late) == Some(Message(BytesOf(parts) + held, trailers, [])) <==>
            AllSound(parts) && late == []
  {
    hide Read, Sent, BytesOf, Frames, Concat, LastFrame, Sound, IsLine, Clear;
    if AllSound(parts) {
      SoundSent(parts);
      ReadsBack(Datas(parts), trailers, late);
      assert BytesOf(parts) + [] == BytesOf(parts);
    } else {
      var k := FirstUnsound(parts);
      var p, after := parts[k], Sent(parts[k + 1..]) + (LastFrame(trailers) + late);
      SentSplit(parts, k);
      SoundSent(parts[..k]);
      assert Sent(parts) + LastFrame(trailers) + late == Frames(Datas(parts[..k])) + (Sized(p.size, p.bytes) + after);
      NoneEmpty(Datas(parts[..k]));
      ReadFrames(Datas(parts[..k]), Sized(p.size, p.bytes) + after);
      LastStarts(trailers, late);
      SentStarts(parts[k + 1..], LastFrame(trailers) + late);
      UnsoundReads(parts, held, k, after, trailers);
    }
  }

  lemma NoneEmpty(parts: seq<Bytes>)
    requires [] !in parts
    ensures forall i :: 0 <= i < |parts| ==> parts[i] != []
  {
    assert forall i :: 0 <= i < |parts| ==> parts[i] in parts;
  }

  /** From the first unsound chunk on the text does not read as what is left of the data. */
  lemma UnsoundReads(parts: seq<Part>, held: Bytes, k: nat, after: Bytes, trailers: seq<Bytes>)
    requires Estimates(parts) && Clear(parts, held) && k < |parts| && !Sound(parts[k]) && after != [] && IsHex(after[0])
    ensures AddBody(BytesOf(parts[..k]), Read(Sized(parts[k].size, parts[k].bytes) + after))
            != Some(Message(BytesOf(parts) + held, trailers, []))
  {
    hide Read, Sent, BytesOf, Frames, Concat, LastFrame, Sized, Frame;
    var p, front, rest := parts[k], BytesOf(parts[..k]), BytesOf(parts[k + 1..]) + held;
    SentSplit(parts, k);
    assert BytesOf(parts) + held == front + (p.bytes + rest);
    if p.size == |p.bytes| {
      EmptyReads(p, after);
    } else {
      OverRead(p.size, p.bytes, after);
      if p.size <= |p.bytes| + 2 {
        OverstatedBreaks(p.size, p.bytes, after);
      } else {
        var r := Read(Sized(p.size, p.bytes) + after);
        if r.Some? && front + r.value.body == front + (p.bytes + rest) {
          SameRest(front, r.value.body, p.bytes + rest);
        }
      }
    }
  }

  lemma SameRest(front: Bytes, a: Bytes, b: Bytes)
    requires front + a == front + b
    ensures a == b
  {
    assert a == (front + a)[|front|..] && b == (front + b)[|front|..];
  }

  lemma EmptyReads(p: Part, after: Bytes)
    requires p.size == |p.bytes| && p.bytes == []
    ensures Read(Sized(p.size, p.bytes) + after) == Some(Message([], [], after))
  {
    EmptyIsLast();
    ReadLastFrame([], after);
  }
}
