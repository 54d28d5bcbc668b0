/**
 * When the one-pass parser decodes. It looks for one encoded byte while it reads
 * and leaves a part as it stands when it has seen none; the two flags share one
 * counter, and characters of a key can raise the flag of the value. Which texts
 * are parsed differently because of it is settled here for every input.
 */
module QueryStringFlags {
  import opened CodeUnits
  import opened Results
  import opened PercentEncoding
  import opened QueryString

  /** The flags within a piece, and how much of an encoded byte has just been read. */
  datatype Scan = Scan(key: bool, value: bool, check: nat)

  /** The search for one encoded byte, a character further. */
  function Test(encoded: bool, check: nat, c: CodeUnit): (bool, nat) {
    if encoded then (true, check)
    else if c == PERCENT then (false, 1)
    else if check > 0 && IsHex(c) then (check + 1 == 3, check + 1)
    else (false, 0)
  }

  function ValueTest(s: Scan, c: CodeUnit): Scan {
    var (value, check) := Test(s.value, s.check, c);
    Scan(s.key, value, check)
  }

  /** A character of the key; the value's search sees it too, unless it belongs to an encoded byte that the key looks for. */
  function KeyNext(s: Scan, c: CodeUnit): Scan {
    var (key, check) := Test(s.key, s.check, c);
    var next := Scan(key, s.value, check);
    if (!s.key && check > 0) || c == PLUS then next else ValueTest(next, c)
  }

  /** A character of the value; a plus leaves the search where it is. */
  function ValueNext(s: Scan, c: CodeUnit): Scan {
    if c == PLUS then s else ValueTest(s, c)
  }

  function ScanKey(raw: Text, s: Scan): Scan {
    if raw == [] then s else KeyNext(ScanKey(raw[..|raw| - 1], s), raw[|raw| - 1])
  }

  function ScanValue(raw: Text, s: Scan): Scan {
    if raw == [] then s else ValueNext(ScanValue(raw[..|raw| - 1], s), raw[|raw| - 1])
  }

  function Start(o: Options): Scan {
    Scan(o.Custom(), o.Custom(), 0)
  }

  /** The flags at the end of a piece. */
  function Flags(piece: Text, o: Options): Scan {
    var k := Find(piece, o.eq);
    var s := ScanKey(piece[..k], Start(o));
    if k == |piece| then s else ScanValue(piece[k + 1..], s.(check := 0))
  }

  function FlaggedParts(piece: Text, o: Options): (Text, Text) {
    var (k, v) := Cut(piece, o.eq);
    (ReadPart(k, Flags(piece, o).key, o), ReadPart(v, Flags(piece, o).value, o))
  }

  function DecodeFlagged(o: Options): Reader {
    piece => FlaggedParts(piece, o)
  }

  /** What `parse` returns: the obvious parser, except that a part is decoded only when its flag is up. */
  function LazyParse(qs: Text, o: Options): Fields {
    AddPieces(map[], Taken(qs, o), DecodeFlagged(o))
  }

  // ------------------------------------------------ an encoded byte raises its flag

  /** No encoded byte so far, and `check` knows of one that has begun. */
  ghost predicate Scanned(raw: Text, check: nat) {
    && !HasEncoded(raw)
    && (raw != [] && raw[|raw| - 1] == PERCENT ==> check == 1)
    && (|raw| > 1 && raw[|raw| - 2] == PERCENT && IsHex(raw[|raw| - 1]) ==> check == 2)
  }

  lemma HasEncodedLast(raw: Text, c: CodeUnit)
    requires !HasEncoded(raw) && HasEncoded(raw + [c])
    ensures |raw| > 1 && raw[|raw| - 2] == PERCENT && IsHex(raw[|raw| - 1]) && IsHex(c)
  {
    var longer := raw + [c];
    forall k | 0 <= k && k + 3 <= |raw| ensures !StartsEncoded(longer[k..]) {
      assert longer[k..][..3] == raw[k..][..3];
      assert !StartsEncoded(raw[k..]);
    }
    var k :| 0 <= k <= |longer| && StartsEncoded(longer[k..]);
  }

  lemma ScanChar(raw: Text, check: nat, c: CodeUnit)
    requires Scanned(raw, check)
    ensures var (encoded, next) := Test(false, check, c); encoded || Scanned(raw + [c], next)
    ensures c == PLUS ==> Scanned(raw + [c], check)
  {
    if HasEncoded(raw + [c]) {
      HasEncodedLast(raw, c);
    }
  }

  lemma ScannedNothing(check: nat)
    ensures Scanned([], check)
  {
  }

  lemma {:induction false} ScanKeyFinds(raw: Text, s: Scan)
    requires s.check == 0
    ensures var r := ScanKey(raw, s); (s.key ==> r.key) && (s.value ==> r.value) && (r.key || Scanned(raw, r.check))
    decreases |raw|
  {
    hide Scanned;
    if raw == [] {
      ScannedNothing(s.check);
    } else {
      var init, c := raw[..|raw| - 1], raw[|raw| - 1];
      ScanKeyFinds(init, s);
      assert raw == init + [c];
      var before := ScanKey(init, s);
      if !before.key {
        ScanChar(init, before.check, c);
      }
    }
  }

  lemma {:induction false} ScanValueFinds(raw: Text, s: Scan)
    requires s.check == 0
    ensures var r := ScanValue(raw, s); r.key == s.key && (s.value ==> r.value) && (r.value || Scanned(raw, r.check))
    decreases |raw|
  {
    hide Scanned;
    if raw == [] {
      ScannedNothing(s.check);
    } else {
      var init, c := raw[..|raw| - 1], raw[|raw| - 1];
      ScanValueFinds(init, s);
      assert raw == init + [c];
      var before := ScanValue(init, s);
      if !before.value {
        ScanChar(init, before.check, c);
      }
    }
  }

  lemma FlagsFind(piece: Text, o: Options)
    ensures var (k, v) := Cut(piece, o.eq); var s := Flags(piece, o);
            && (o.Custom() ==> s.key && s.value)
            && (s.key || !HasEncoded(k)) && (s.value || v == [] || !HasEncoded(v))
  {
    hide ScanKey, ScanValue, HasEncoded;
    var k := Find(piece, o.eq);
    ScanKeyFinds(piece[..k], Start(o));
    assert k == |piece| ==> piece[..k] == piece;
    if k < |piece| {
      ScanValueFinds(piece[k + 1..], ScanKey(piece[..k], Start(o)).(check := 0));
    }
  }

  // -------------------------------------------------------------- undecoded parts

  lemma {:induction false} UnplusAt(raw: Text)
    ensures |Unplus(raw, false)| == |raw|
    ensures forall k :: 0 <= k < |raw| ==> Unplus(raw, false)[k] == if raw[k] == PLUS then SPACE else raw[k]
  {
    if raw != [] { UnplusAt(raw[1..]); }
  }

  lemma UnplusEncoded(raw: Text)
    requires !HasEncoded(raw)
    ensures !HasEncoded(Unplus(raw, false))
  {
    UnplusAt(raw);
    var t := Unplus(raw, false);
    forall k | 0 <= k <= |t| ensures !StartsEncoded(t[k..]) {
      assert !StartsEncoded(raw[k..]);
    }
  }

  /** Decoding leaves a part without an encoded byte as it is when there is no "%", or no character that it would replace. */
  predicate Untouched(raw: Text) {
    PERCENT !in raw || AsciiOrReplaced(raw)
  }

  lemma UnplusUntouched(raw: Text)
    ensures Untouched(Unplus(raw, false)) <==> Untouched(raw)
  {
    UnplusAt(raw);
    var t := Unplus(raw, false);
    assert forall k :: 0 <= k < |raw| ==> (t[k] == PERCENT <==> raw[k] == PERCENT);
  }

  /** Not decoding a part without an encoded byte matters exactly when it is touched; decoding would make it lighter. */
  lemma PartDone(raw: Text, flag: bool, o: Options)
    requires !flag ==> !o.Custom() && (raw == [] || !HasEncoded(raw))
    ensures ReadPart(raw, flag, o) == ReadPart(raw, true, o) <==> flag || Untouched(raw)
    ensures ReadPart(raw, flag, o) == ReadPart(raw, true, o) ||
            Weight(ReadPart(raw, true, o)) < Weight(ReadPart(raw, flag, o))
  {
    hide HasEncoded, AsciiOrReplaced, Weight, Untouched;
    if !flag {
      var t := Unplus(raw, false);
      UnplusUntouched(raw);
      if t == [] {
        NothingUntouched();
      } else {
        UnplusEncoded(raw);
        PlainPart(t);
      }
    }
  }

  lemma NothingUntouched()
    ensures Untouched([])
  {
  }

  lemma PlainPart(t: Text)
    requires !HasEncoded(t)
    ensures Unescape(t, false) == t <==> Untouched(t)
    ensures Unescape(t, false) == t || Weight(Unescape(t, false)) < Weight(t)
  {
    hide HasEncoded, AsciiOrReplaced, Weight;
    DecodeNothing(t);
    UnescapeNothing(t);
    LowBytes(t, UnescapeBytes(t, false));
  }

  // ------------------------------------------------------------- the whole parse

  /** Both parts of the piece are decoded, or would not change. */
  predicate Fine(piece: Text, o: Options) {
    var (k, v) := Cut(piece, o.eq);
    (Flags(piece, o).key || Untouched(k)) && (Flags(piece, o).value || Untouched(v))
  }

  function WeightOf(pair: (Text, Text)): nat {
    Weight(pair.0) + Weight(pair.1)
  }

  lemma PieceDone(piece: Text, o: Options)
    ensures FlaggedParts(piece, o) == DecodedParts(piece, o) <==> Fine(piece, o)
    ensures !Fine(piece, o) ==> WeightOf(DecodedParts(piece, o)) < WeightOf(FlaggedParts(piece, o))
  {
    hide ReadPart, Flags, HasEncoded, Untouched, Weight, Cut;
    FlagsFind(piece, o);
    var (k, v) := Cut(piece, o.eq);
    PartDone(k, Flags(piece, o).key, o);
    PartDone(v, Flags(piece, o).value, o);
  }

  function Pairs(pieces: seq<Text>, read: Reader): seq<(Text, Text)> {
    if pieces == [] then [] else (if pieces[0] != [] then [read(pieces[0])] else []) + Pairs(pieces[1..], read)
  }

  function Total(pairs: seq<(Text, Text)>): nat {
    if pairs == [] then 0 else WeightOf(pairs[0]) + Total(pairs[1..])
  }

  /** The values of a key are the pairs with that key. */
  lemma {:induction false} PairsHeld(pieces: seq<Text>, read: Reader, k: Text, v: Text)
    ensures multiset(Pairs(pieces, read))[(k, v)] == multiset(ValuesOf(pieces, k, read))[v]
    decreases |pieces|
  {
    if pieces != [] {
      PairsHeld(pieces[1..], read, k, v);
    }
  }

  lemma {:induction false} TotalSplit(a: seq<(Text, Text)>, b: seq<(Text, Text)>)
    ensures Total(a + b) == Total(a) + Total(b)
    decreases |a|
  {
    hide WeightOf;
    if a == [] {
      assert a + b == b;
    } else {
      assert (a + b)[1..] == a[1..] + b;
      TotalSplit(a[1..], b);
    }
  }

  lemma {:induction false} SameTotal(a: seq<(Text, Text)>, b: seq<(Text, Text)>)
    requires multiset(a) == multiset(b)
    ensures Total(a) == Total(b)
    decreases |a|
  {
    hide WeightOf;
    if a == [] {
      assert |multiset(b)| == 0;
    } else {
      assert a[0] in multiset(b);
      var i :| 0 <= i < |b| && b[i] == a[0];
      WithoutOne(a, b, i);
      SameTotal(a[1..], b[..i] + b[i + 1..]);
      TotalWithout(b, i);
    }
  }

  lemma WithoutOne(a: seq<(Text, Text)>, b: seq<(Text, Text)>, i: nat)
    requires multiset(a) == multiset(b) && a != [] && i < |b| && b[i] == a[0]
    ensures multiset(a[1..]) == multiset(b[..i] + b[i + 1..])
  {
    assert a == [a[0]] + a[1..];
    assert b == b[..i] + [b[i]] + b[i + 1..];
    assert multiset(a[1..]) == multiset(a) - multiset{a[0]};
  }

  lemma TotalWithout(b: seq<(Text, Text)>, i: nat)
    requires i < |b|
    ensures Total(b) == WeightOf(b[i]) + Total(b[..i] + b[i + 1..])
  {
    hide WeightOf;
    assert b == b[..i] + b[i..] && b[i..][1..] == b[i + 1..];
    TotalSplit(b[..i], b[i..]);
    TotalSplit(b[..i], b[i + 1..]);
  }

  /** The flags make the parse no lighter, and heavier as soon as one piece is not fine. */
  lemma {:induction false} ParseTotals(pieces: seq<Text>, o: Options)
    ensures Total(Pairs(pieces, DecodeBoth(o))) <= Total(Pairs(pieces, DecodeFlagged(o)))
    ensures Total(Pairs(pieces, DecodeBoth(o))) == Total(Pairs(pieces, DecodeFlagged(o))) ==>
              forall k :: 0 <= k < |pieces| && pieces[k] != [] ==> Fine(pieces[k], o)
    decreases |pieces|
  {
    hide Fine, WeightOf, FlaggedParts, DecodedParts, Total;
    if pieces == [] {
    } else {
      ParseTotals(pieces[1..], o);
      PieceDone(pieces[0], o);
      TotalOne(pieces, DecodeBoth(o));
      TotalOne(pieces, DecodeFlagged(o));
      assert forall k :: 0 < k < |pieces| ==> pieces[k] == pieces[1..][k - 1];
    }
  }

  lemma TotalOne(pieces: seq<Text>, read: Reader)
    requires pieces != []
    ensures Total(Pairs(pieces, read)) ==
            (if pieces[0] != [] then WeightOf(read(pieces[0])) else 0) + Total(Pairs(pieces[1..], read))
  {
    hide WeightOf;
    var rest := Pairs(pieces[1..], read);
    assert pieces[0] != [] ==> ([read(pieces[0])] + rest)[1..] == rest;
    assert [] + rest == rest;
  }

  lemma {:induction false} SameReads(obj: Fields, pieces: seq<Text>, a: Reader, b: Reader)
    requires forall k :: 0 <= k < |pieces| && pieces[k] != [] ==> a(pieces[k]) == b(pieces[k])
    ensures AddPieces(obj, pieces, a) == AddPieces(obj, pieces, b)
    decreases |pieces|
  {
    hide Add;
    if pieces != [] {
      SameReads(AddPiece(obj, pieces[0], a), pieces[1..], a, b);
    }
  }

  /**
   * Decoding only what has been seen to be encoded changes nothing exactly when
   * every piece taken in is fine; with a custom decoder every piece is.
   */
  lemma LazyExactly(qs: Text, o: Options)
    ensures LazyParse(qs, o) == SimpleParse(qs, o) <==>
            forall k :: 0 <= k < |Taken(qs, o)| && Taken(qs, o)[k] != [] ==> Fine(Taken(qs, o)[k], o)
    ensures o.Custom() ==> LazyParse(qs, o) == SimpleParse(qs, o)
  {
    hide Fine, Taken, FlaggedParts, DecodedParts, AddPieces;
    var pieces := Taken(qs, o);
    forall k | 0 <= k < |pieces| ensures FlaggedParts(pieces[k], o) == DecodedParts(pieces[k], o) <==> Fine(pieces[k], o) {
      PieceDone(pieces[k], o);
    }
    if forall k :: 0 <= k < |pieces| && pieces[k] != [] ==> Fine(pieces[k], o) {
      SameReads(map[], pieces, DecodeFlagged(o), DecodeBoth(o));
    }
    if LazyParse(qs, o) == SimpleParse(qs, o) {
      SamePairs(pieces, DecodeFlagged(o), DecodeBoth(o));
      SameTotal(Pairs(pieces, DecodeFlagged(o)), Pairs(pieces, DecodeBoth(o)));
      ParseTotals(pieces, o);
    }
    if o.Custom() {
      forall k | 0 <= k < |pieces| ensures Fine(pieces[k], o) {
        CustomFine(pieces[k], o);
      }
    }
  }

  lemma CustomFine(piece: Text, o: Options)
    requires o.Custom()
    ensures Fine(piece, o)
  {
    FlagsFind(piece, o);
  }

  lemma SamePairs(pieces: seq<Text>, a: Reader, b: Reader)
    requires AddPieces(map[], pieces, a) == AddPieces(map[], pieces, b)
    ensures multiset(Pairs(pieces, a)) == multiset(Pairs(pieces, b))
  {
    AddPiecesCollects(map[], pieces, a);
    AddPiecesCollects(map[], pieces, b);
    forall pair: (Text, Text) ensures multiset(Pairs(pieces, a))[pair] == multiset(Pairs(pieces, b))[pair] {
      PairsHeld(pieces, a, pair.0, pair.1);
      PairsHeld(pieces, b, pair.0, pair.1);
      assert [] + ValuesOf(pieces, pair.0, a) == [] + ValuesOf(pieces, pair.0, b);
      assert [] + ValuesOf(pieces, pair.0, a) == ValuesOf(pieces, pair.0, a);
      assert [] + ValuesOf(pieces, pair.0, b) == ValuesOf(pieces, pair.0, b);
    }
  }

  /** Options of a call without any: "&", "=", 1000 pairs, the default decoder. */
  const PLAIN: Options := Options(0x26, 0x3D, 1000, None)

  const E_ACUTE: CodeUnit := 0xE9

  /** For "é%" the two differ: the parser leaves the text as it is, decoding replaces its first character. */
  lemma LeftAlone()
    ensures LazyParse([E_ACUTE, PERCENT], PLAIN) == map[[E_ACUTE, PERCENT] := One([])]
    ensures SimpleParse([E_ACUTE, PERCENT], PLAIN) == map[[REPLACEMENT, PERCENT] := One([])]
  {
    hide ReadPart, ScanKey, Taken, Cut, Find;
    var s := [E_ACUTE, PERCENT];
    OnePiece(s, DecodeBoth(PLAIN));
    OnePiece(s, DecodeFlagged(PLAIN));
    BothReadings(s);
    NothingRead();
    NotFlagged(s);
  }

  lemma OnePiece(s: Text, read: Reader)
    requires s == [E_ACUTE, PERCENT]
    ensures Find(s, PLAIN.eq) == 2 && Taken(s, PLAIN) == [s] && Cut(s, PLAIN.eq) == (s, []) && s[..2] == s
    ensures AddPieces(map[], [s], read) == map[read(s).0 := One(read(s).1)]
  {
    FindAt(s, 2, PLAIN.eq);
    FindAt(s, 2, PLAIN.sep);
    assert [s][1..] == [];
    assert AddPieces(AddPiece(map[], s, read), [], read) == AddPiece(map[], s, read);
  }

  lemma NothingRead()
    ensures ReadPart([], true, PLAIN) == [] && ReadPart([], false, PLAIN) == []
  {
  }

  lemma NotFlagged(s: Text)
    requires s == [E_ACUTE, PERCENT]
    ensures !ScanKey(s, Start(PLAIN)).key
  {
    assert ScanKey(s[..1], Start(PLAIN)) == Scan(false, false, 0);
  }

  lemma BothReadings(s: Text)
    requires s == [E_ACUTE, PERCENT]
    ensures ReadPart(s, false, PLAIN) == s && ReadPart(s, true, PLAIN) == [REPLACEMENT, PERCENT]
  {
    var b: seq<Byte> := [E_ACUTE, PERCENT];
    assert !HasEncoded(s);
    UnplusAt(s);
    assert Unplus(s, false) == s;
    DecodeNothing(s);
    UnescapeNothing(s);
    assert UnescapeBytes(s, false) == b;
    assert Utf8Text(b[1..]) == [PERCENT] && Utf8Text(b) == [REPLACEMENT] + Utf8Text(b[1..]);
  }
}
