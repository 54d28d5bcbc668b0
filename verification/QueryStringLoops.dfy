/** The loops of lib/querystring.js: the one-pass parser, `unescapeBuffer` and `stringify`. */
module QueryStringLoops {
  import opened CodeUnits
  import opened Results
  import opened PercentEncoding
  import opened QueryString
  import opened QueryStringFlags
  import opened QueryStringRoundTrip

  // ----------------------------------------------- what the parser has in hand

  /** `acc` and the text not yet copied make up what has been read of a part. */
  ghost predicate Reads(acc: Text, pending: Text, raw: Text, custom: bool) {
    PLUS !in pending && acc + pending == Unplus(raw, custom)
  }

  lemma {:induction false} UnplusAppend(a: Text, b: Text, custom: bool)
    ensures Unplus(a + b, custom) == Unplus(a, custom) + Unplus(b, custom)
  {
    if a == [] {
      assert a + b == b;
    } else {
      assert (a + b)[1..] == a[1..] + b;
      UnplusAppend(a[1..], b, custom);
    }
  }

  lemma UnplusOne(c: CodeUnit, custom: bool)
    ensures Unplus([c], custom) == if c == PLUS then PlusText(custom) else [c]
  {
    assert Unplus([], custom) == [];
  }

  lemma ReadChar(acc: Text, pending: Text, raw: Text, c: CodeUnit, custom: bool)
    requires Reads(acc, pending, raw, custom)
    ensures c != PLUS ==> Reads(acc, pending + [c], raw + [c], custom)
    ensures c == PLUS ==> Reads(acc + pending + PlusText(custom), [], raw + [c], custom)
  {
    UnplusAppend(raw, [c], custom);
    UnplusOne(c, custom);
    assert acc + pending + [c] == acc + (pending + [c]);
  }

  lemma ReadNothing(acc: Text, pending: Text, raw: Text, custom: bool)
    requires Reads(acc, pending, raw, custom)
    ensures acc + pending == [] <==> raw == []
  {
  }

  // -------------------------------------------------------------- inside a piece

  method AddKeyVal(obj: Fields, key: Text, value: Text, keyEncoded: bool, valEncoded: bool, o: Options) returns (r: Fields)
    ensures r == Add(obj, if |key| > 0 && keyEncoded then Decode(key, o) else key,
                     if |value| > 0 && valEncoded then Decode(value, o) else value)
  {
    var k, v := key, value;
    if |key| > 0 && keyEncoded {
      k := Decode(key, o);
    }
    if |value| > 0 && valEncoded {
      v := Decode(value, o);
    }
    if k !in obj {
      r := obj[k := One(v)];
    } else {
      var curValue := obj[k];
      if curValue.Many? {
        r := obj[k := Many(curValue.values + [v])];
      } else {
        r := obj[k := Many([curValue.value, v])];
      }
    }
  }

  /**
   * What holds inside a piece `cur` of which the parser has passed `eqAt`
   * characters before the key/value separator, or all of them without one.
   */
  ghost predicate InPiece(cur: Text, seen: bool, eqAt: nat, key: Text, value: Text, pending: Text, s: Scan, o: Options) {
    && o.sep !in cur
    && (if seen then
          && eqAt < |cur| && cur[eqAt] == o.eq && o.eq !in cur[..eqAt]
          && key == Unplus(cur[..eqAt], o.Custom()) && Reads(value, pending, cur[eqAt + 1..], o.Custom())
          && s == ScanValue(cur[eqAt + 1..], ScanKey(cur[..eqAt], Start(o)).(check := 0))
        else
          && o.eq !in cur && value == [] && Reads(key, pending, cur, o.Custom())
          && s == ScanKey(cur, Start(o)))
  }

  /** A finished piece is added as specified. */
  lemma PieceEnds(obj: Fields, cur: Text, seen: bool, eqAt: nat, key: Text, value: Text, pending: Text, s: Scan, o: Options)
    requires InPiece(cur, seen, eqAt, key, value, pending, s, o) && cur != []
    ensures var k, v := if seen then key else key + pending, if seen then value + pending else value;
            Add(obj, if |k| > 0 && s.key then Decode(k, o) else k, if |v| > 0 && s.value then Decode(v, o) else v)
            == AddPiece(obj, cur, DecodeFlagged(o))
  {
    hide Decode, Unplus, Add, Find, ScanKey, ScanValue;
    NothingToRead(o);
    if seen {
      FindAt(cur, eqAt, o.eq);
    } else {
      FindAt(cur, |cur|, o.eq);
      assert cur[..|cur|] == cur;
    }
  }

  lemma NothingToRead(o: Options)
    ensures Unplus([], o.Custom()) == []
  {
  }

  // ------------------------------------------------------------ counting pieces

  lemma LimitStep(obj: Fields, piece: Text, rest: seq<Text>, n: int, read: Reader)
    requires n != 0
    ensures AddPieces(obj, Limit([piece] + rest, n), read) ==
            if n == 1 then AddPiece(obj, piece, read) else AddPieces(AddPiece(obj, piece, read), Limit(rest, n - 1), read)
  {
    var all := Limit([piece] + rest, n);
    assert all[0] == piece;
    if n == 1 {
      assert all[1..] == [];
    } else {
      assert all[1..] == Limit(rest, n - 1);
    }
  }

  lemma SplitStep(qs: Text, start: nat, i: nat, sep: CodeUnit)
    requires start <= i <= |qs| && sep !in qs[start..i]
    ensures i < |qs| && qs[i] == sep ==> Split(qs[start..], sep) == [qs[start..i]] + Split(qs[i + 1..], sep)
    ensures i == |qs| ==> Split(qs[start..], sep) == [qs[start..i]]
  {
    var s := qs[start..];
    assert s[..i - start] == qs[start..i];
    if i == |qs| || qs[i] == sep {
      assert i == |qs| ==> s[..i - start] == s;
      FindAt(s, i - start, sep);
      assert i < |qs| ==> s[i - start + 1..] == qs[i + 1..];
    }
  }

  // ------------------------------------------------------------------ one character

  lemma KeyChar(cur: Text, key: Text, pending: Text, s: Scan, o: Options, c: CodeUnit)
    requires InPiece(cur, false, 0, key, [], pending, s, o)
    requires c != o.sep && c != o.eq
    ensures c != PLUS ==> InPiece(cur + [c], false, 0, key, [], pending + [c], KeyNext(s, c), o)
    ensures c == PLUS ==> InPiece(cur + [c], false, 0, key + pending + PlusText(o.Custom()), [], [], KeyNext(s, c), o)
  {
    hide Reads, Unplus, PlusText, KeyNext, Start;
    ReadChar(key, pending, cur, c, o.Custom());
    ScanKeyStep(cur, c, Start(o));
  }

  lemma ScanKeyStep(raw: Text, c: CodeUnit, s: Scan)
    ensures ScanKey(raw + [c], s) == KeyNext(ScanKey(raw, s), c)
    ensures ScanValue(raw + [c], s) == ValueNext(ScanValue(raw, s), c)
  {
    assert (raw + [c])[..|raw|] == raw;
  }

  lemma ValueChar(cur: Text, eqAt: nat, key: Text, value: Text, pending: Text, s: Scan, o: Options, c: CodeUnit)
    requires InPiece(cur, true, eqAt, key, value, pending, s, o)
    requires c != o.sep
    ensures c != PLUS ==> InPiece(cur + [c], true, eqAt, key, value, pending + [c], ValueTest(s, c), o)
    ensures c == PLUS ==>
              InPiece(cur + [c], true, eqAt, key, value + pending + PlusText(o.Custom()), [], s, o)
  {
    hide Reads, Unplus, PlusText, ValueTest, Start, ScanKey, ScanValue;
    var raw := cur[eqAt + 1..];
    assert (cur + [c])[..eqAt] == cur[..eqAt] && (cur + [c])[eqAt + 1..] == raw + [c];
    ReadChar(value, pending, raw, c, o.Custom());
    ScanKeyStep(raw, c, ScanKey(cur[..eqAt], Start(o)).(check := 0));
  }

  /** The first key/value separator of a piece ends its key. */
  lemma KeyEnds(cur: Text, key: Text, pending: Text, s: Scan, o: Options)
    requires InPiece(cur, false, 0, key, [], pending, s, o) && o.sep != o.eq
    ensures InPiece(cur + [o.eq], true, |cur|, key + pending, [], [], s.(check := 0), o)
  {
    hide ScanKey, Start;
    assert (cur + [o.eq])[..|cur|] == cur && (cur + [o.eq])[|cur| + 1..] == [];
    NothingToRead(o);
  }

  lemma PieceStarts(o: Options)
    ensures InPiece([], false, 0, [], [], [], Scan(o.Custom(), o.Custom(), 0), o)
  {
  }

  lemma PieceFacts(cur: Text, seen: bool, eqAt: nat, key: Text, value: Text, pending: Text, s: Scan, o: Options)
    requires InPiece(cur, seen, eqAt, key, value, pending, s, o)
    ensures o.sep !in cur && (seen ==> cur != []) && (!seen ==> (key + pending == [] <==> cur == []))
    ensures cur == [] ==> s == Scan(o.Custom(), o.Custom(), 0)
  {
    if !seen {
      ReadNothing(key, pending, cur, o.Custom());
    }
  }

  lemma AddNothing(obj: Fields, o: Options)
    ensures AddPiece(obj, [], DecodeFlagged(o)) == obj
  {
  }

  lemma StartParse(qs: Text, o: Options)
    ensures LazyParse([], o) == map[]
    ensures forall n :: (n == o.maxKeys || (n < 0 && o.maxKeys <= 0)) ==>
              AddPieces(map[], Limit(Split(qs, o.sep), n), DecodeFlagged(o)) == LazyParse(qs, o)
  {
    var nothing: seq<Text> := [[]];
    assert Split([], o.sep) == nothing && nothing[1..] == [] && Limit(nothing, o.maxKeys) == nothing;
    AddNothing(map[], o);
    assert AddPieces(map[], nothing, DecodeFlagged(o)) ==
           AddPieces(AddPiece(map[], [], DecodeFlagged(o)), [], DecodeFlagged(o));
    assert AddPieces(map[], [], DecodeFlagged(o)) == map[];
  }

  /** What is done with the piece that ends before `end`; nothing if it is empty. */
  method EndPiece(qs: Text, o: Options, obj: Fields, end: nat, ghost start: nat, lastPos: nat, eqIdx: nat, ghost eqAt: nat,
                  partKey: Text, partValue: Text, keyEncoded: bool, valEncoded: bool, ghost check: nat)
    returns (r: Fields, empty: bool)
    requires start <= lastPos <= end <= |qs| && eqIdx <= 1
    requires InPiece(qs[start..end], eqIdx == 1, eqAt, partKey, partValue, qs[lastPos..end],
                     Scan(keyEncoded, valEncoded, check), o)
    requires eqIdx == 0 ==> partValue == []
    ensures r == AddPiece(obj, qs[start..end], DecodeFlagged(o)) && (empty <==> start == end)
  {
    hide InPiece, AddPiece, Decode, Add, DecodeFlagged;
    var key, value := partKey, partValue;
    ghost var cur, s := qs[start..end], Scan(keyEncoded, valEncoded, check);
    PieceFacts(cur, eqIdx == 1, eqAt, key, value, qs[lastPos..end], s, o);
    AddNothing(obj, o);
    assert lastPos == end ==> qs[lastPos..end] == [] && key + [] == key && value + [] == value;
    if eqIdx < 1 {
      if lastPos < end {
        key := key + qs[lastPos..end];
      } else if |key| == 0 {
        return obj, true;
      }
    } else if lastPos < end {
      value := value + qs[lastPos..end];
    }
    PieceEnds(obj, cur, eqIdx == 1, eqAt, partKey, partValue, qs[lastPos..end], s, o);
    r := AddKeyVal(obj, key, value, keyEncoded, valEncoded, o);
    empty := false;
  }

  lemma LastPiece(qs: Text, start: nat, obj: Fields, pairs: int, o: Options)
    requires start <= |qs| && o.sep !in qs[start..] && pairs != 0
    ensures AddPieces(obj, Limit(Split(qs[start..], o.sep), pairs), DecodeFlagged(o)) ==
            AddPiece(obj, qs[start..], DecodeFlagged(o))
  {
    assert qs[start..|qs|] == qs[start..];
    SplitStep(qs, start, |qs|, o.sep);
    assert Limit([qs[start..]], pairs) == [qs[start..]];
    assert AddPieces(AddPiece(obj, qs[start..], DecodeFlagged(o)), [], DecodeFlagged(o)) ==
           AddPiece(obj, qs[start..], DecodeFlagged(o));
  }

  /** The search for an encoded byte in a key, with the fall through to that of the value. */
  method ScanKeyChar(keyFlag: bool, valueFlag: bool, encodeCheck: nat, code: CodeUnit)
    returns (settled: bool, keyEncoded: bool, valEncoded: bool, check: nat)
    ensures Scan(keyEncoded, valEncoded, check) == KeyNext(Scan(keyFlag, valueFlag, encodeCheck), code)
    ensures settled ==> code != PLUS
  {
    settled, keyEncoded, valEncoded, check := false, keyFlag, valueFlag, encodeCheck;
    if !keyEncoded {
      if code == PERCENT {
        check := 1;
        return true, keyEncoded, valEncoded, check;
      } else if check > 0 {
        if IsHex(code) {
          check := check + 1;
          if check == 3 {
            keyEncoded := true;
          }
          return true, keyEncoded, valEncoded, check;
        } else {
          check := 0;
        }
      }
    }
    if code != PLUS {
      valEncoded, check := ScanValueChar(keyEncoded, valEncoded, check, code);
    }
  }

  /** The search for an encoded byte in a value. */
  method ScanValueChar(ghost keyFlag: bool, valueFlag: bool, encodeCheck: nat, code: CodeUnit)
    returns (valEncoded: bool, check: nat)
    ensures Scan(keyFlag, valEncoded, check) == ValueTest(Scan(keyFlag, valueFlag, encodeCheck), code)
  {
    valEncoded, check := valueFlag, encodeCheck;
    if !valEncoded {
      if code == PERCENT {
        check := 1;
      } else if check > 0 {
        if IsHex(code) {
          check := check + 1;
          if check == 3 {
            valEncoded := true;
          }
        } else {
          check := 0;
        }
      }
    }
  }

  /** The one-pass parser. */
  method Parse(qs: Text, o: Options) returns (obj: Fields)
    ensures obj == LazyParse(qs, o)
    ensures obj == SimpleParse(qs, o) <==>
            forall k :: 0 <= k < |Taken(qs, o)| && Taken(qs, o)[k] != [] ==> Fine(Taken(qs, o)[k], o)
  {
    hide *;
    obj := map[];
    LazyExactly(qs, o);
    StartParse(qs, o);
    if |qs| == 0 {
      return;
    }
    var pairs := if o.maxKeys > 0 then o.maxKeys else -1;
    var custom := o.Custom();
    var plusChar := PlusText(custom);
    var lastPos, eqIdx, encodeCheck: nat := 0, 0, 0;
    var key: Text, value: Text := [], [];
    var keyEncoded, valEncoded := custom, custom;
    ghost var start: nat, eqAt: nat := 0, 0;
    PieceStarts(o);
    assert qs[0..] == qs;
    var i := 0;
    while i < |qs|
      invariant 0 <= start <= lastPos <= i <= |qs| && pairs != 0 && 0 <= eqIdx <= 1
      invariant InPiece(qs[start..i], eqIdx == 1, eqAt, key, value, qs[lastPos..i],
                        Scan(keyEncoded, valEncoded, encodeCheck), o)
      invariant eqIdx == 0 ==> value == [] && eqAt == 0
      invariant AddPieces(obj, Limit(Split(qs[start..], o.sep), pairs), DecodeFlagged(o)) == LazyParse(qs, o)
    {
      var code := qs[i];
      ghost var cur, pending, s := qs[start..i], qs[lastPos..i], Scan(keyEncoded, valEncoded, encodeCheck);
      assert qs[start..i + 1] == cur + [code] && qs[lastPos..i + 1] == pending + [code];
      assert qs[i + 1..i + 1] == [];
      assert lastPos == i ==> key + pending == key && value + pending == value;
      PieceFacts(cur, eqIdx == 1, eqAt, key, value, pending, s, o);
      if code == o.sep {
        SplitStep(qs, start, i, o.sep);
        LimitStep(obj, cur, Split(qs[i + 1..], o.sep), pairs, DecodeFlagged(o));
        PieceStarts(o);
        var empty;
        obj, empty := EndPiece(qs, o, obj, i, start, lastPos, eqIdx, eqAt, key, value, keyEncoded, valEncoded, encodeCheck);
        pairs := pairs - 1;
        if pairs == 0 {
          return;
        }
        start, eqAt := i + 1, 0;
        if !empty {
          keyEncoded, valEncoded := custom, custom;
          key, value := [], [];
          encodeCheck := 0;
        }
        lastPos, eqIdx := i + 1, 0;
      } else if eqIdx < 1 {
        if code == o.eq {
          KeyEnds(cur, key, pending, s, o);
          eqAt := i - start;
          if lastPos < i {
            key := key + qs[lastPos..i];
          }
          eqIdx, encodeCheck, lastPos := 1, 0, i + 1;
        } else {
          KeyChar(cur, key, pending, s, o, code);
          var settled;
          settled, keyEncoded, valEncoded, encodeCheck := ScanKeyChar(keyEncoded, valEncoded, encodeCheck, code);
          if !settled && code == PLUS {
            if lastPos < i {
              key := key + qs[lastPos..i];
            }
            key := key + plusChar;
            lastPos := i + 1;
          }
        }
      } else {
        ValueChar(cur, eqAt, key, value, pending, s, o, code);
        if code == PLUS {
          if lastPos < i {
            value := value + qs[lastPos..i];
          }
          value := value + plusChar;
          lastPos := i + 1;
        } else {
          valEncoded, encodeCheck := ScanValueChar(keyEncoded, valEncoded, encodeCheck, code);
        }
      }
      i := i + 1;
    }
    assert qs[start..i] == qs[start..] && qs[lastPos..i] == qs[lastPos..];
    PieceFacts(qs[start..], eqIdx == 1, eqAt, key, value, qs[lastPos..], Scan(keyEncoded, valEncoded, encodeCheck), o);
    LastPiece(qs, start, obj, pairs, o);
    var empty;
    obj, empty := EndPiece(qs, o, obj, |qs|, start, lastPos, eqIdx, eqAt, key, value, keyEncoded, valEncoded, encodeCheck);
  }

  /** `parse(stringify(obj))`: both loops, one after the other. */
  method StringifyThenParse(obj: Entries, o: Options) returns (r: Option<Fields>)
    requires Default(o) && o.sep != o.eq && Distinct(obj)
    ensures r == Some(AsMap(obj)) <==> AllWellFormed(obj) && NoShortArrays(obj) && AllTaken(obj, o)
  {
    hide Stringify, LazyParse, SimpleParse, AllWellFormed, NoShortArrays, AllTaken;
    RoundTrip(obj, o);
    var text := WriteFields(obj, o.sep, o.eq);
    if text.None? {
      return None;
    }
    var fields := Parse(text.value, o);
    return Some(fields);
  }

  // ------------------------------------------------------------- unescapeBuffer

  /** An encoded byte stands at `i`. */
  predicate EncodedAt(s: Text, i: nat) {
    i + 2 < |s| && s[i] == PERCENT && IsHex(s[i + 1]) && IsHex(s[i + 2])
  }

  lemma UnescapePlain(s: Text, i: nat, spaces: bool)
    requires i < |s| && !EncodedAt(s, i)
    ensures UnescapeBytes(s[i..], spaces) ==
            [if s[i] == PLUS && spaces then 32 else s[i] % 256] + UnescapeBytes(s[i + 1..], spaces)
  {
    assert s[i..][1..] == s[i + 1..];
    assert i + 2 < |s| ==> s[i..][1] == s[i + 1] && s[i..][2] == s[i + 2];
  }

  lemma UnescapeEncoded(s: Text, i: nat, spaces: bool)
    requires EncodedAt(s, i)
    ensures UnescapeBytes(s[i..], spaces) ==
            [HexValue(s[i + 1]) * 16 + HexValue(s[i + 2])] + UnescapeBytes(s[i + 3..], spaces)
  {
    assert s[i..][3..] == s[i + 3..] && s[i..][1] == s[i + 1] && s[i..][2] == s[i + 2];
  }

  /** `unescapeBuffer`, filling its buffer by index. */
  method UnescapeBuffer(s: Text, decodeSpaces: bool) returns (r: seq<Byte>)
    ensures r == UnescapeBytes(s, decodeSpaces)
  {
    hide UnescapeBytes;
    var out := new Byte[|s|];
    var index: nat, outIndex: nat, hasHex := 0, 0, false;
    assert s[0..] == s;
    while index < |s|
      invariant 0 <= outIndex <= index <= |s|
      invariant !hasHex ==> outIndex == index
      invariant out[..outIndex] + UnescapeBytes(s[index..], decodeSpaces) == UnescapeBytes(s, decodeSpaces)
      decreases |s| - index
    {
      var hex;
      index, outIndex, hex := UnescapeOne(s, decodeSpaces, out, index, outIndex);
      hasHex := hasHex || hex;
    }
    UnescapeEnd(decodeSpaces);
    assert s[index..] == [] && out[..outIndex] + [] == out[..outIndex];
    return if hasHex then out[..outIndex] else out[..];
  }

  /** One round of that loop. */
  method UnescapeOne(s: Text, decodeSpaces: bool, out: array<Byte>, from: nat, outFrom: nat)
    returns (index: nat, outIndex: nat, hex: bool)
    requires outFrom <= from < |s| == out.Length
    modifies out
    ensures outIndex <= index <= |s| && from < index
    ensures !hex ==> index - from == outIndex - outFrom
    ensures out[..outIndex] + UnescapeBytes(s[index..], decodeSpaces) ==
            old(out[..outFrom]) + UnescapeBytes(s[from..], decodeSpaces)
  {
    hide UnescapeBytes, IsHex, HexValue;
    index, outIndex, hex := from, outFrom, false;
    var currentChar := s[index];
    if currentChar == PLUS && decodeSpaces {
      UnescapePlain(s, index, decodeSpaces);
      Store(out, outIndex, 32, UnescapeBytes(s[index + 1..], decodeSpaces));
      outIndex, index := outIndex + 1, index + 1;
      return;
    }
    if currentChar == PERCENT && index < |s| - 2 {
      index := index + 1;
      currentChar := s[index];
      if !IsHex(currentChar) {
        UnescapePlain(s, from, decodeSpaces);
        Store(out, outIndex, PERCENT, UnescapeBytes(s[index..], decodeSpaces));
        outIndex := outIndex + 1;
        return;
      }
      index := index + 1;
      if !IsHex(s[index]) {
        UnescapePlain(s, from, decodeSpaces);
        Store(out, outIndex, PERCENT, UnescapeBytes(s[index - 1..], decodeSpaces));
        outIndex := outIndex + 1;
        index := index - 1;
        HexIsPlain(currentChar);
        UnescapePlain(s, index, decodeSpaces);
      } else {
        hex := true;
        UnescapeEncoded(s, from, decodeSpaces);
        currentChar := HexValue(currentChar) * 16 + HexValue(s[index]);
      }
    } else {
      UnescapePlain(s, from, decodeSpaces);
    }
    Store(out, outIndex, currentChar % 256, UnescapeBytes(s[index + 1..], decodeSpaces));
    outIndex, index := outIndex + 1, index + 1;
  }

  lemma HexIsPlain(c: CodeUnit)
    requires IsHex(c)
    ensures c != PLUS && c != PERCENT && c < 256
  {
  }

  /** Writing one byte after those written. */
  method Store(out: array<Byte>, at: nat, b: Byte, ghost rest: seq<Byte>)
    requires at < out.Length
    modifies out
    ensures out[..at + 1] == old(out[..at]) + [b]
    ensures out[..at + 1] + rest == old(out[..at]) + ([b] + rest)
  {
    out[at] := b;
  }

  lemma UnescapeEnd(spaces: bool)
    ensures UnescapeBytes([], spaces) == []
  {
  }

  // ------------------------------------------------------------------ stringify

  /** The text so far and the pieces still to come; a separator goes between two pieces. */
  function Append(fields: Text, piece: Text, sep: CodeUnit): Text {
    if fields == [] then piece else fields + [sep] + piece
  }

  function AppendAll(fields: Text, pieces: seq<Text>, sep: CodeUnit): Text
    decreases |pieces|
  {
    if pieces == [] then fields else AppendAll(Append(fields, pieces[0], sep), pieces[1..], sep)
  }

  lemma {:induction false} AppendAllJoin(fields: Text, before: seq<Text>, pieces: seq<Text>, sep: CodeUnit)
    requires forall i :: 0 <= i < |before| ==> before[i] != []
    requires forall i :: 0 <= i < |pieces| ==> pieces[i] != []
    requires fields == Join(before, sep)
    ensures AppendAll(fields, pieces, sep) == Join(before + pieces, sep)
    decreases |pieces|
  {
    if pieces == [] {
      assert before + pieces == before;
    } else {
      var more := before + [pieces[0]];
      assert more[..|before|] == before;
      JoinSomething(before, sep);
      assert Join(more, sep) == Append(fields, pieces[0], sep);
      AppendAllJoin(Append(fields, pieces[0], sep), more, pieces[1..], sep);
      assert more + pieces[1..] == before + pieces;
    }
  }

  lemma {:induction false} JoinSomething(pieces: seq<Text>, sep: CodeUnit)
    requires forall i :: 0 <= i < |pieces| ==> pieces[i] != []
    ensures Join(pieces, sep) == [] <==> pieces == []
  {
  }

  lemma {:induction false} AppendAllSplit(fields: Text, a: seq<Text>, b: seq<Text>, sep: CodeUnit)
    ensures AppendAll(fields, a + b, sep) == AppendAll(AppendAll(fields, a, sep), b, sep)
    decreases |a|
  {
    if a == [] {
      assert a + b == b;
    } else {
      assert (a + b)[1..] == a[1..] + b;
      AppendAllSplit(Append(fields, a[0], sep), a[1..], b, sep);
    }
  }

  lemma {:induction false} PiecesNonEmpty(obj: Entries, eq: CodeUnit)
    requires Pieces(obj, eq).Some?
    ensures forall i :: 0 <= i < |Pieces(obj, eq).value| ==> Pieces(obj, eq).value[i] != []
    decreases |obj|
  {
    hide Escape;
    if obj != [] {
      EntryNonEmpty(Escape(obj[0].0).value, Values(obj[0].1), eq);
      PiecesNonEmpty(obj[1..], eq);
    }
  }

  lemma {:induction false} EntryNonEmpty(k: Text, values: seq<Text>, eq: CodeUnit)
    requires EntryPieces(k, values, eq).Some?
    ensures forall i :: 0 <= i < |EntryPieces(k, values, eq).value| ==> EntryPieces(k, values, eq).value[i] != []
    decreases |values|
  {
    hide Escape;
    if values != [] { EntryNonEmpty(k, values[1..], eq); }
  }

  lemma NoPieces(key: Text, eq: CodeUnit)
    ensures EntryPieces(key, [], eq) == Some([])
  {
  }

  lemma NothingAppended(fields: Text, sep: CodeUnit)
    ensures AppendAll(fields, [], sep) == fields
  {
  }

  lemma EntryStep(key: Text, values: seq<Text>, j: nat, eq: CodeUnit)
    requires j < |values|
    ensures var v, rest := Escape(values[j]), EntryPieces(key, values[j + 1..], eq);
            EntryPieces(key, values[j..], eq) ==
            if v.Some? && rest.Some? then Some([key + [eq] + v.value] + rest.value) else None
  {
    hide Escape;
    assert values[j..][1..] == values[j + 1..];
  }

  lemma AppendStep(fields: Text, piece: Text, rest: seq<Text>, sep: CodeUnit)
    ensures AppendAll(fields, [piece] + rest, sep) == AppendAll(Append(fields, piece, sep), rest, sep)
  {
    assert ([piece] + rest)[1..] == rest;
  }

  /** The inner loop of `stringify`: one entry, with `ks` its escaped key and the key/value separator. */
  method WriteEntry(fields: Text, ks: Text, values: seq<Text>, sep: CodeUnit, ghost key: Text, eq: CodeUnit)
    returns (r: Option<Text>)
    requires ks == key + [eq]
    ensures var pieces := EntryPieces(key, values, eq);
            r == if pieces.Some? then Some(AppendAll(fields, pieces.value, sep)) else None
  {
    hide Escape, EntryPieces, AppendAll;
    var text := fields;
    var j := 0;
    NoPieces(key, eq);
    while j < |values|
      invariant 0 <= j <= |values|
      invariant var all, rest := EntryPieces(key, values, eq), EntryPieces(key, values[j..], eq);
                && (all.Some? <==> rest.Some?)
                && (all.Some? ==> AppendAll(fields, all.value, sep) == AppendAll(text, rest.value, sep))
    {
      EntryStep(key, values, j, eq);
      var v := Escape(values[j]);
      if v.None? {
        return None;
      }
      ghost var rest := EntryPieces(key, values[j + 1..], eq);
      ghost var piece := key + [eq] + v.value;
      if rest.Some? {
        AppendStep(text, piece, rest.value, sep);
      }
      assert text + [sep] + piece == text + [sep] + ks + v.value;
      text := if text == [] then ks + v.value else text + [sep] + ks + v.value;
      j := j + 1;
    }
    assert values[j..] == [];
    NothingAppended(text, sep);
    return Some(text);
  }

  /** `stringify` for an object with the given own keys, each a string or an array of strings. */
  method WriteFields(obj: Entries, sep: CodeUnit, eq: CodeUnit) returns (r: Option<Text>)
    ensures r == Stringify(obj, sep, eq)
  {
    hide Escape, EntryPieces, AppendAll, Join;
    var fields: Text := [];
    StartFields(obj, sep, eq);
    var i := 0;
    assert obj[0..] == obj;
    while i < |obj|
      invariant 0 <= i <= |obj|
      invariant var all, rest := Pieces(obj, eq), Pieces(obj[i..], eq);
                && (all.Some? <==> rest.Some?)
                && (all.Some? ==> Join(all.value, sep) == AppendAll(fields, rest.value, sep))
    {
      assert obj[i..][1..] == obj[i + 1..] && obj[i..][0] == obj[i];
      var (k, v) := obj[i];
      var ks := Escape(k);
      if ks.None? {
        return None;
      }
      var written := WriteEntry(fields, ks.value + [eq], Values(v), sep, ks.value, eq);
      if written.None? {
        return None;
      }
      ghost var entry, rest := EntryPieces(ks.value, Values(v), eq), Pieces(obj[i + 1..], eq);
      if rest.Some? {
        AppendAllSplit(fields, entry.value, rest.value, sep);
      }
      fields := written.value;
      i := i + 1;
    }
    NothingAppended(fields, sep);
    return Some(fields);
  }

  lemma StartFields(obj: Entries, sep: CodeUnit, eq: CodeUnit)
    ensures Pieces(obj, eq).Some? ==> Join(Pieces(obj, eq).value, sep) == AppendAll([], Pieces(obj, eq).value, sep)
  {
    if Pieces(obj, eq).Some? {
      var pieces := Pieces(obj, eq).value;
      PiecesNonEmpty(obj, eq);
      AppendAllJoin([], [], pieces, sep);
      assert [] + pieces == pieces;
    }
  }
}
