/** `stringify`, and why `parse` undoes it. */
module QueryStringRoundTrip {
  import opened CodeUnits
  import opened Results
  import opened PercentEncoding
  import opened QueryString
  import opened QueryStringFlags

  /** An object as `stringify` walks it: its own keys in order. */
  type Entries = seq<(Text, Field)>

  /** `k` + `eq` + each value, all escaped. */
  function EntryPieces(key: Text, values: seq<Text>, eq: CodeUnit): Option<seq<Text>> {
    if values == [] then Some([])
    else
      var v, rest := Escape(values[0]), EntryPieces(key, values[1..], eq);
      if v.Some? && rest.Some? then Some([key + [eq] + v.value] + rest.value) else None
  }

  function Pieces(obj: Entries, eq: CodeUnit): Option<seq<Text>> {
    if obj == [] then Some([])
    else
      var k := Escape(obj[0].0);
      var head := if k.Some? then EntryPieces(k.value, Values(obj[0].1), eq) else None;
      var rest := Pieces(obj[1..], eq);
      if head.Some? && rest.Some? then Some(head.value + rest.value) else None
  }

  function Join(pieces: seq<Text>, sep: CodeUnit): Text {
    if pieces == [] then []
    else if |pieces| == 1 then pieces[0]
    else Join(pieces[..|pieces| - 1], sep) + [sep] + pieces[|pieces| - 1]
  }

  /** `stringify` for strings and arrays of strings; `None` when escaping throws. */
  function Stringify(obj: Entries, sep: CodeUnit, eq: CodeUnit): Option<Text> {
    var pieces := Pieces(obj, eq);
    if pieces.Some? then Some(Join(pieces.value, sep)) else None
  }

  predicate Distinct(obj: Entries) {
    forall i, j :: 0 <= i < j < |obj| ==> obj[i].0 != obj[j].0
  }

  /** No array has fewer than two elements: those read back as nothing or as a plain string. */
  predicate NoShortArrays(obj: Entries) {
    forall i :: 0 <= i < |obj| && obj[i].1.Many? ==> |obj[i].1.values| >= 2
  }

  predicate AllWellFormed(obj: Entries) {
    forall i :: 0 <= i < |obj| ==> WellFormed(obj[i].0) && forall v :: v in Values(obj[i].1) ==> WellFormed(v)
  }

  ghost function AsMap(obj: Entries): Fields {
    if obj == [] then map[] else AsMap(obj[1..])[obj[0].0 := obj[0].1]
  }

  /** Separators that escaping never leaves in a text. */
  predicate EscapedAway(c: CodeUnit) { !Unreserved(c) && c != PERCENT }

  // ------------------------------------------------------------ escaped texts

  lemma {:induction false} EscapePlain(s: Text, c: CodeUnit)
    requires EscapedAway(c) && Escape(s).Some?
    ensures c !in Escape(s).value
    decreases |s|
  {
    hide Escaped;
    if s != [] {
      if IsSurrogate(s[0]) {
        EscapePlain(s[2..], c);
        PointPlain(Pair(s[0], s[1]), c);
      } else {
        EscapePlain(s[1..], c);
        if s[0] < 0x80 {
          EscapedPlain(s[0], c);
        } else {
          PointPlain(s[0], c);
        }
      }
    }
  }

  lemma EscapedPlain(b: Byte, c: CodeUnit)
    requires EscapedAway(c)
    ensures c !in Escaped(b)
  {
  }

  lemma PointPlain(p: int, c: CodeUnit)
    requires 0x80 <= p <= 0x10FFFF && EscapedAway(c)
    ensures c !in EscapedPoint(p)
  {
    hide Escaped;
    forall b: Byte ensures c !in Escaped(b) { EscapedPlain(b, c); }
  }

  lemma {:induction false} UnplusNothing(s: Text, custom: bool)
    requires PLUS !in s
    ensures Unplus(s, custom) == s
  {
    if s != [] { UnplusNothing(s[1..], custom); }
  }

  /** The default decoder, and separators that escaping never leaves in a text. */
  predicate Default(o: Options) {
    o.decoder.None? && EscapedAway(o.sep) && EscapedAway(o.eq)
  }

  /** An escaped part decodes to the string with its surrogates paired. */
  lemma {:induction false} PartDecodes(s: Text, o: Options)
    requires Default(o) && Escape(s).Some?
    ensures ReadPart(Escape(s).value, true, o) == Paired(s)
  {
    EscapePlain(s, PLUS);
    UnplusNothing(Escape(s).value, false);
    DecodeEscape(s);
  }

  /** A written piece is cut where it was put together. */
  lemma {:induction false} PieceCut(k: Text, v: Text, piece: Text, o: Options)
    requires Default(o) && Escape(k).Some? && Escape(v).Some? && piece == Escape(k).value + [o.eq] + Escape(v).value
    ensures Cut(piece, o.eq) == (Escape(k).value, Escape(v).value) && piece != []
  {
    EscapePlain(k, o.eq);
    var n := |Escape(k).value|;
    assert piece[..n] == Escape(k).value && piece[n] == o.eq && piece[n + 1..] == Escape(v).value;
    FindAt(piece, n, o.eq);
  }

  lemma PieceRead(k: Text, v: Text, piece: Text, o: Options)
    requires Default(o) && Escape(k).Some? && Escape(v).Some? && piece == Escape(k).value + [o.eq] + Escape(v).value
    ensures piece != [] && DecodeBoth(o)(piece) == (Paired(k), Paired(v)) && Fine(piece, o)
  {
    hide ReadPart, Escape, Cut, Paired, Untouched, Flags, Default;
    PieceCut(k, v, piece, o);
    PartDecodes(k, o);
    PartDecodes(v, o);
    EscapedUntouched(k);
    EscapedUntouched(v);
  }

  lemma EscapedUntouched(s: Text)
    requires Escape(s).Some?
    ensures Untouched(Escape(s).value)
  {
    var text := Escape(s).value;
    forall k | 0 <= k < |text| ensures text[k] < 0x80 {
      if text[k] >= 0x80 { EscapePlain(s, text[k]); }
    }
  }

  // ---------------------------------------------------- what is read back

  function PairedAll(values: seq<Text>): (r: seq<Text>)
    ensures |r| == |values| && forall i :: 0 <= i < |r| ==> r[i] == Paired(values[i])
  {
    seq(|values|, i requires 0 <= i < |values| => Paired(values[i]))
  }

  /** The values that are read back for `key`. */
  function ReadBack(obj: Entries, key: Text): seq<Text> {
    if obj == [] then []
    else (if Paired(obj[0].0) == key then PairedAll(Values(obj[0].1)) else []) + ReadBack(obj[1..], key)
  }

  lemma {:induction false} ValuesOfAppend(a: seq<Text>, b: seq<Text>, key: Text, read: Reader)
    ensures ValuesOf(a + b, key, read) == ValuesOf(a, key, read) + ValuesOf(b, key, read)
    decreases |a|
  {
    if a == [] {
      assert a + b == b;
    } else {
      assert (a + b)[1..] == a[1..] + b;
      ValuesOfAppend(a[1..], b, key, read);
    }
  }

  lemma {:induction false} EntryReadBack(k: Text, values: seq<Text>, key: Text, o: Options)
    requires Default(o) && Escape(k).Some? && EntryPieces(Escape(k).value, values, o.eq).Some?
    ensures var pieces := EntryPieces(Escape(k).value, values, o.eq).value;
            && |pieces| == |values| && (forall i :: 0 <= i < |pieces| ==> pieces[i] != [] && Fine(pieces[i], o))
            && ValuesOf(pieces, key, DecodeBoth(o)) == if Paired(k) == key then PairedAll(values) else []
    decreases |values|
  {
    hide DecodedParts, Escape, Default, Fine, Paired, ValuesOf;
    if values == [] {
      ValuesOfNothing(key, DecodeBoth(o));
    } else {
      EntryReadBack(k, values[1..], key, o);
      var pieces := EntryPieces(Escape(k).value, values, o.eq).value;
      var rest := EntryPieces(Escape(k).value, values[1..], o.eq).value;
      PieceRead(k, values[0], pieces[0], o);
      assert pieces == [pieces[0]] + rest;
      ValuesOfAppend([pieces[0]], rest, key, DecodeBoth(o));
      ValuesOfLast(pieces[0], key, DecodeBoth(o));
      assert PairedAll(values) == [Paired(values[0])] + PairedAll(values[1..]);
      forall i | 0 < i < |pieces| ensures pieces[i] != [] && Fine(pieces[i], o) {
        assert pieces[i] == rest[i - 1];
      }
    }
  }

  function Count(obj: Entries): nat {
    if obj == [] then 0 else |Values(obj[0].1)| + Count(obj[1..])
  }

  lemma {:induction false} PiecesReadBack(obj: Entries, key: Text, o: Options)
    requires Default(o) && Pieces(obj, o.eq).Some?
    ensures var pieces := Pieces(obj, o.eq).value;
            && |pieces| == Count(obj) && (forall i :: 0 <= i < |pieces| ==> pieces[i] != [] && Fine(pieces[i], o))
            && ValuesOf(pieces, key, DecodeBoth(o)) == ReadBack(obj, key)
    decreases |obj|
  {
    hide ValuesOf, Escape, EntryPieces, Default, Fine, Paired;
    if obj == [] {
      ValuesOfNothing(key, DecodeBoth(o));
    } else {
      var k := Escape(obj[0].0).value;
      EntryReadBack(obj[0].0, Values(obj[0].1), key, o);
      PiecesReadBack(obj[1..], key, o);
      ValuesOfAppend(EntryPieces(k, Values(obj[0].1), o.eq).value, Pieces(obj[1..], o.eq).value, key, DecodeBoth(o));
    }
  }

  lemma ValuesOfNothing(key: Text, read: Reader)
    ensures ValuesOf([], key, read) == []
  {
  }

  /** Nothing that is escaped away occurs in a piece, except the key/value separator. */
  lemma {:induction false} EntryPiecesClean(k: Text, values: seq<Text>, eq: CodeUnit, c: CodeUnit)
    requires EscapedAway(c) && c != eq && Escape(k).Some? && EntryPieces(Escape(k).value, values, eq).Some?
    ensures forall i :: 0 <= i < |EntryPieces(Escape(k).value, values, eq).value| ==>
              c !in EntryPieces(Escape(k).value, values, eq).value[i]
    decreases |values|
  {
    hide Escape;
    if values != [] {
      EntryPiecesClean(k, values[1..], eq, c);
      EscapePlain(k, c);
      EscapePlain(values[0], c);
    }
  }

  lemma {:induction false} PiecesClean(obj: Entries, eq: CodeUnit, c: CodeUnit)
    requires EscapedAway(c) && c != eq && Pieces(obj, eq).Some?
    ensures forall i :: 0 <= i < |Pieces(obj, eq).value| ==> c !in Pieces(obj, eq).value[i]
    decreases |obj|
  {
    hide Escape, EntryPieces;
    if obj != [] {
      EntryPiecesClean(obj[0].0, Values(obj[0].1), eq, c);
      PiecesClean(obj[1..], eq, c);
    }
  }

  lemma {:induction false} JoinClean(pieces: seq<Text>, sep: CodeUnit, c: CodeUnit)
    requires c != sep && forall i :: 0 <= i < |pieces| ==> c !in pieces[i]
    ensures c !in Join(pieces, sep)
  {
    if |pieces| > 1 { JoinClean(pieces[..|pieces| - 1], sep, c); }
  }

  /** With ASCII separators what `stringify` writes is ASCII. */
  lemma StringifyAscii(obj: Entries, sep: CodeUnit, eq: CodeUnit)
    requires sep < 0x80 && eq < 0x80 && Stringify(obj, sep, eq).Some?
    ensures AllAscii(Stringify(obj, sep, eq).value)
  {
    var text := Stringify(obj, sep, eq).value;
    forall k | 0 <= k < |text| ensures text[k] < 0x80 {
      if text[k] >= 0x80 {
        PiecesClean(obj, eq, text[k]);
        JoinClean(Pieces(obj, eq).value, sep, text[k]);
      }
    }
  }

  lemma {:induction false} SplitAppend(a: Text, piece: Text, sep: CodeUnit)
    requires sep !in piece
    ensures Split(a + [sep] + piece, sep) == Split(a, sep) + [piece]
    decreases |a|
  {
    var s := a + [sep] + piece;
    var k := Find(a, sep);
    assert s[..k] == a[..k];
    FindAt(s, k, sep);
    if k == |a| {
      assert s[k + 1..] == piece && a[..k] == a;
      FindAt(piece, |piece|, sep);
    } else {
      assert s[k + 1..] == a[k + 1..] + [sep] + piece;
      SplitAppend(a[k + 1..], piece, sep);
    }
  }

  lemma {:induction false} SplitJoin(pieces: seq<Text>, sep: CodeUnit)
    requires pieces != [] && forall i :: 0 <= i < |pieces| ==> sep !in pieces[i]
    ensures Split(Join(pieces, sep), sep) == pieces
  {
    var init, last := pieces[..|pieces| - 1], pieces[|pieces| - 1];
    assert pieces == init + [last];
    if init == [] {
      FindAt(last, |last|, sep);
    } else {
      SplitJoin(init, sep);
      SplitAppend(Join(init, sep), last, sep);
    }
  }

  /** The parser takes in as many pieces as `stringify` writes for `obj`. */
  predicate AllTaken(obj: Entries, o: Options) {
    o.maxKeys <= 0 || Count(obj) <= o.maxKeys
  }

  lemma {:induction false} TakenStringified(obj: Entries, o: Options)
    requires Default(o) && o.sep != o.eq && Pieces(obj, o.eq).Some?
    ensures var pieces, taken := Pieces(obj, o.eq).value, Taken(Join(Pieces(obj, o.eq).value, o.sep), o);
            taken == if pieces == [] then [[]] else Limit(pieces, o.maxKeys)
  {
    hide Escape, Pieces, Join, Split, EscapedAway;
    var pieces := Pieces(obj, o.eq).value;
    if pieces == [] {
      JoinNothing(o);
    } else {
      PiecesClean(obj, o.eq, o.sep);
      SplitJoin(pieces, o.sep);
    }
  }

  lemma JoinNothing(o: Options)
    ensures Split(Join([], o.sep), o.sep) == [[]]
  {
  }

  /** The parser reads a stringified object as the obvious one does. */
  lemma {:induction false} StringifiedFine(obj: Entries, o: Options)
    requires Default(o) && o.sep != o.eq && Pieces(obj, o.eq).Some?
    ensures var text := Join(Pieces(obj, o.eq).value, o.sep); LazyParse(text, o) == SimpleParse(text, o)
  {
    hide Escape, Pieces, Join, Fine, Default, Taken, LazyParse, SimpleParse;
    var text := Join(Pieces(obj, o.eq).value, o.sep);
    PiecesReadBack(obj, [], o);
    TakenStringified(obj, o);
    LazyExactly(text, o);
  }

  /**
   * Parsing a stringified object: every key has the values it was written with,
   * surrogates paired, as far as pieces are taken in; and when they are not all,
   * some key misses a value.
   */
  lemma {:induction false} ParseStringified(obj: Entries, o: Options)
    requires Default(o) && o.sep != o.eq && Pieces(obj, o.eq).Some?
    ensures var r := LazyParse(Join(Pieces(obj, o.eq).value, o.sep), o);
            && Compact(r) && (forall key :: Held(r, key) <= ReadBack(obj, key))
            && ((forall key :: Held(r, key) == ReadBack(obj, key)) <==> AllTaken(obj, o))
  {
    var pieces, read := Pieces(obj, o.eq).value, DecodeBoth(o);
    hide Escape, Pieces, AddPiece, ValuesOf, Join, Fine, Default, DecodedParts, LazyParse, Taken, Compact, Held;
    var text := Join(pieces, o.sep);
    StringifiedFine(obj, o);
    TakenStringified(obj, o);
    var taken := Taken(text, o);
    AddPiecesCollects(map[], taken, read);
    PiecesReadBack(obj, [], o);
    NothingHeld();
    forall key ensures Held(LazyParse(text, o), key) == ValuesOf(Limit(pieces, o.maxKeys), key, read) {
      if pieces == [] { ValuesOfEmptyPiece(key, read); }
      assert [] + ValuesOf(taken, key, read) == ValuesOf(taken, key, read);
    }
    forall key ensures ValuesOf(Limit(pieces, o.maxKeys), key, read) <= ReadBack(obj, key) {
      PiecesReadBack(obj, key, o);
      LimitValues(pieces, o.maxKeys, key, read);
    }
    if AllTaken(obj, o) {
      forall key ensures ValuesOf(pieces, key, read) == ReadBack(obj, key) { PiecesReadBack(obj, key, o); }
    } else {
      var key := read(pieces[|pieces| - 1]).0;
      PiecesReadBack(obj, key, o);
      LimitValues(pieces, o.maxKeys, key, read);
      assert Held(LazyParse(text, o), key) != ReadBack(obj, key);
    }
  }

  lemma NothingHeld()
    ensures Compact(map[]) && forall key :: Held(map[], key) == []
  {
  }

  /** A limit cuts the values of a key short, those of the last piece's key in any case. */
  lemma LimitValues(pieces: seq<Text>, n: int, key: Text, read: Reader)
    ensures ValuesOf(Limit(pieces, n), key, read) <= ValuesOf(pieces, key, read)
    ensures 0 < n < |pieces| && pieces[|pieces| - 1] != [] && key == read(pieces[|pieces| - 1]).0 ==>
              ValuesOf(Limit(pieces, n), key, read) != ValuesOf(pieces, key, read)
  {
    hide ValuesOf;
    if 0 < n < |pieces| {
      var last := pieces[|pieces| - 1];
      assert pieces == pieces[..n] + pieces[n..];
      ValuesOfAppend(pieces[..n], pieces[n..], key, read);
      assert pieces[n..] == pieces[n..|pieces| - 1] + [last];
      ValuesOfAppend(pieces[n..|pieces| - 1], [last], key, read);
      ValuesOfLast(last, key, read);
    }
  }

  lemma ValuesOfLast(piece: Text, key: Text, read: Reader)
    ensures ValuesOf([piece], key, read) == if piece != [] && read(piece).0 == key then [read(piece).1] else []
  {
    assert [piece][1..] == [];
  }

  lemma ValuesOfEmptyPiece(key: Text, read: Reader)
    ensures ValuesOf([[]], key, read) == ValuesOf([], key, read)
  {
    ValuesOfLast([], key, read);
    ValuesOfNothing(key, read);
  }

  // ---------------------------------------------------------------- the law

  lemma {:induction false} AsMapAt(obj: Entries, i: nat)
    requires Distinct(obj) && i < |obj|
    ensures obj[i].0 in AsMap(obj) && AsMap(obj)[obj[i].0] == obj[i].1
  {
    if i > 0 {
      AsMapAt(obj[1..], i - 1);
    }
  }

  lemma {:induction false} AsMapFrom(obj: Entries, k: Text) returns (i: nat)
    requires k in AsMap(obj)
    ensures i < |obj| && obj[i].0 == k
  {
    if obj[0].0 == k {
      i := 0;
    } else {
      i := AsMapFrom(obj[1..], k);
      i := i + 1;
    }
  }

  lemma AsMapHolds(obj: Entries)
    requires Distinct(obj)
    ensures Compact(AsMap(obj)) <==> NoShortArrays(obj)
    ensures forall k :: k in AsMap(obj) <==> exists i :: 0 <= i < |obj| && obj[i].0 == k
    ensures forall i :: 0 <= i < |obj| ==> obj[i].0 in AsMap(obj) && AsMap(obj)[obj[i].0] == obj[i].1
  {
    hide AsMap, Distinct;
    forall i | 0 <= i < |obj| ensures obj[i].0 in AsMap(obj) && AsMap(obj)[obj[i].0] == obj[i].1 {
      AsMapAt(obj, i);
    }
    forall k | k in AsMap(obj) ensures exists i :: 0 <= i < |obj| && obj[i].0 == k {
      var i := AsMapFrom(obj, k);
    }
  }

  lemma PairedSame(values: seq<Text>)
    requires forall v :: v in values ==> WellFormed(v)
    ensures PairedAll(values) == values
  {
    forall j | 0 <= j < |values| ensures Paired(values[j]) == values[j] {
      PairedWellFormed(values[j]);
    }
  }

  lemma WellFormedRest(obj: Entries)
    requires AllWellFormed(obj) && obj != []
    ensures AllWellFormed(obj[1..]) && Paired(obj[0].0) == obj[0].0 && PairedAll(Values(obj[0].1)) == Values(obj[0].1)
  {
    assert forall i :: 0 <= i < |obj[1..]| ==> obj[1..][i] == obj[i + 1];
    PairedWellFormed(obj[0].0);
    PairedSame(Values(obj[0].1));
  }

  lemma {:induction false} ReadBackNothing(obj: Entries, key: Text)
    requires AllWellFormed(obj) && forall i :: 0 <= i < |obj| ==> obj[i].0 != key
    ensures ReadBack(obj, key) == []
  {
    hide AllWellFormed, Paired, PairedAll;
    if obj != [] {
      WellFormedRest(obj);
      ReadBackNothing(obj[1..], key);
    }
  }

  /** With well-formed strings everything is read back as it was. */
  lemma {:induction false} ReadBackSame(obj: Entries, i: nat)
    requires Distinct(obj) && AllWellFormed(obj) && i < |obj|
    ensures ReadBack(obj, obj[i].0) == Values(obj[i].1)
    decreases |obj|
  {
    hide AllWellFormed, Paired, PairedAll, Values;
    WellFormedRest(obj);
    assert Values(obj[i].1) + [] == Values(obj[i].1);
    if i > 0 {
      ReadBackSame(obj[1..], i - 1);
    } else {
      ReadBackNothing(obj[1..], obj[0].0);
    }
  }

  /** Whatever is read back is well-formed. */
  lemma {:induction false} ReadBackWellFormed(obj: Entries, key: Text, eq: CodeUnit)
    requires Pieces(obj, eq).Some?
    ensures ReadBack(obj, key) != [] ==> WellFormed(key)
    ensures forall v :: v in ReadBack(obj, key) ==> WellFormed(v)
    decreases |obj|
  {
    hide Escape;
    if obj != [] {
      ReadBackWellFormed(obj[1..], key, eq);
      PairedWellFormed(obj[0].0);
      EntryWellFormed(Escape(obj[0].0).value, Values(obj[0].1), eq);
    }
  }

  lemma {:induction false} EntryWellFormed(k: Text, values: seq<Text>, eq: CodeUnit)
    requires EntryPieces(k, values, eq).Some?
    ensures forall v :: v in PairedAll(values) ==> WellFormed(v)
    decreases |values|
  {
    hide Escape;
    if values != [] {
      EntryWellFormed(k, values[1..], eq);
      PairedWellFormed(values[0]);
      assert PairedAll(values) == [Paired(values[0])] + PairedAll(values[1..]);
    }
  }

  lemma {:induction false} WellFormedPieces(obj: Entries, eq: CodeUnit)
    requires AllWellFormed(obj)
    ensures Pieces(obj, eq).Some?
    decreases |obj|
  {
    hide Escape;
    if obj != [] {
      assert AllWellFormed(obj[1..]) by {
        assert forall i :: 0 <= i < |obj[1..]| ==> obj[1..][i] == obj[i + 1];
      }
      WellFormedPieces(obj[1..], eq);
      PairedWellFormed(obj[0].0);
      WellFormedEntry(Escape(obj[0].0).value, Values(obj[0].1), eq);
    }
  }

  lemma {:induction false} WellFormedEntry(k: Text, values: seq<Text>, eq: CodeUnit)
    requires forall v :: v in values ==> WellFormed(v)
    ensures EntryPieces(k, values, eq).Some?
    decreases |values|
  {
    hide Escape;
    if values != [] {
      WellFormedEntry(k, values[1..], eq);
      PairedWellFormed(values[0]);
    }
  }

  /**
   * `parse` undoes `stringify`, for distinct keys, exactly when every key and
   * value is a well-formed UTF-16 string, no array has fewer than two elements
   * and there are no more values than `parse` takes in.
   */
  lemma RoundTrip(obj: Entries, o: Options)
    requires Default(o) && o.sep != o.eq && Distinct(obj)
    ensures Stringify(obj, o.sep, o.eq).Some? && LazyParse(Stringify(obj, o.sep, o.eq).value, o) == AsMap(obj)
            <==> AllWellFormed(obj) && NoShortArrays(obj) && AllTaken(obj, o)
  {
    hide LazyParse, Pieces, Join, ReadBack, WellFormed, Default, AllWellFormed, NoShortArrays, AllTaken, Compact, Held,
         Values;
    AsMapHolds(obj);
    if AllWellFormed(obj) {
      WellFormedPieces(obj, o.eq);
    }
    if Pieces(obj, o.eq).Some? {
      ParseStringified(obj, o);
      var r := LazyParse(Join(Pieces(obj, o.eq).value, o.sep), o);
      if r == AsMap(obj) {
        FieldsWellFormed(obj, o.eq, r);
      }
      if AllWellFormed(obj) && NoShortArrays(obj) {
        SameFields(obj, r);
      }
    }
  }

  lemma SameFields(obj: Entries, r: Fields)
    requires Distinct(obj) && AllWellFormed(obj) && Compact(r) && Compact(AsMap(obj))
    ensures r == AsMap(obj) <==> forall key :: Held(r, key) == ReadBack(obj, key)
  {
    hide ReadBack, AllWellFormed, Compact;
    AsMapHolds(obj);
    forall key ensures ReadBack(obj, key) == Held(AsMap(obj), key) {
      if key in AsMap(obj) {
        var i := AsMapFrom(obj, key);
        ReadBackSame(obj, i);
      } else {
        ReadBackNothing(obj, key);
      }
    }
    if forall key :: Held(r, key) == ReadBack(obj, key) {
      CompactUnique(r, AsMap(obj));
    }
  }

  lemma FieldsWellFormed(obj: Entries, eq: CodeUnit, r: Fields)
    requires Distinct(obj) && Pieces(obj, eq).Some? && r == AsMap(obj) && NoShortArrays(obj)
    requires forall key :: Held(r, key) <= ReadBack(obj, key)
    ensures AllWellFormed(obj)
  {
    hide ReadBack, Pieces, WellFormed;
    AsMapHolds(obj);
    forall i | 0 <= i < |obj| ensures WellFormed(obj[i].0) && forall v :: v in Values(obj[i].1) ==> WellFormed(v) {
      ReadBackWellFormed(obj, obj[i].0, eq);
      assert Held(r, obj[i].0) == Values(obj[i].1);
      assert Values(obj[i].1) != [];
    }
  }
}
