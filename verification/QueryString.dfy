/**
 * Query strings: the parser of lib/querystring.js specified piece by piece, and
 * what its result holds key by key.
 */
module QueryString {
  import opened CodeUnits
  import opened Results
  import opened PercentEncoding

  /** A value of the result object: a string, or an array of strings. */
  datatype Field = One(value: Text) | Many(values: seq<Text>)

  type Fields = map<Text, Field>

  /** A `decodeURIComponent` option; `None` when it throws. */
  type Decoder = Text -> Option<Text>

  datatype Options = Options(sep: CodeUnit, eq: CodeUnit, maxKeys: int, decoder: Option<Decoder>)
  {
    predicate Custom() { decoder.Some? }
  }

  /** `QueryString.unescape`: strict decoding or, where that throws, decoding byte by byte. */
  function Unescape(s: Text, decodeSpaces: bool): Text {
    var r := DecodeUri(s);
    if r.Some? then r.value else Utf8Text(UnescapeBytes(s, decodeSpaces))
  }

  /** `decodeStr`. */
  function Decode(s: Text, o: Options): Text {
    if o.decoder.None? then Unescape(s, false)
    else
      var r := o.decoder.value(s);
      if r.Some? then r.value else Unescape(s, true)
  }

  // -------------------------------------------------------------------- pieces

  /** The position of the first `c` in `s`, or its length. */
  function Find(s: Text, c: CodeUnit): (k: nat)
    ensures k <= |s| && (k < |s| ==> s[k] == c)
    ensures forall j :: 0 <= j < k ==> s[j] != c
  {
    if s == [] || s[0] == c then 0 else 1 + Find(s[1..], c)
  }

  lemma {:induction false} FindAt(s: Text, k: nat, c: CodeUnit)
    requires k <= |s| && c !in s[..k] && (k < |s| ==> s[k] == c)
    ensures Find(s, c) == k
  {
    assert forall j :: 0 <= j < k ==> s[j] == s[..k][j];
  }

  function Split(s: Text, c: CodeUnit): (r: seq<Text>)
    ensures |r| > 0
    decreases |s|
  {
    var k := Find(s, c);
    if k == |s| then [s] else [s[..k]] + Split(s[k + 1..], c)
  }

  /** Pluses as spaces, or as their encoding for a custom decoder. */
  function Unplus(s: Text, custom: bool): Text {
    if s == [] then []
    else (if s[0] == PLUS then PlusText(custom) else [s[0]]) + Unplus(s[1..], custom)
  }

  function PlusText(custom: bool): Text {
    if custom then [PERCENT, 0x32, 0x30] else [SPACE]
  }

  /** The text before the first `eq` and after it. */
  function Cut(piece: Text, eq: CodeUnit): (Text, Text) {
    var k := Find(piece, eq);
    if k == |piece| then (piece, []) else (piece[..k], piece[k + 1..])
  }

  /** A part of a piece with its pluses replaced, decoded or not. */
  function ReadPart(s: Text, decoded: bool, o: Options): Text {
    var t := Unplus(s, o.Custom());
    if t != [] && decoded then Decode(t, o) else t
  }

  /** What the key and the value of a piece are read as. */
  type Reader = Text -> (Text, Text)

  function DecodedParts(piece: Text, o: Options): (Text, Text) {
    var (k, v) := Cut(piece, o.eq);
    (ReadPart(k, true, o), ReadPart(v, true, o))
  }

  function DecodeBoth(o: Options): Reader {
    piece => DecodedParts(piece, o)
  }

  function Add(obj: Fields, key: Text, value: Text): Fields {
    if key !in obj then obj[key := One(value)]
    else if obj[key].Many? then obj[key := Many(obj[key].values + [value])]
    else obj[key := Many([obj[key].value, value])]
  }

  function AddPiece(obj: Fields, piece: Text, read: Reader): Fields {
    if piece == [] then obj else Add(obj, read(piece).0, read(piece).1)
  }

  function AddPieces(obj: Fields, pieces: seq<Text>, read: Reader): Fields
    decreases |pieces|
  {
    if pieces == [] then obj else AddPieces(AddPiece(obj, pieces[0], read), pieces[1..], read)
  }

  /** The first `n` pieces for a positive `n`, else all of them. */
  function Limit(pieces: seq<Text>, n: int): seq<Text> {
    if 0 < n < |pieces| then pieces[..n] else pieces
  }

  /** The pieces that a parse of `qs` takes in. */
  function Taken(qs: Text, o: Options): seq<Text> {
    Limit(Split(qs, o.sep), o.maxKeys)
  }

  /** The obvious parser: split, keep so many pieces, skip the empty ones, cut, decode both parts, collect. */
  function SimpleParse(qs: Text, o: Options): Fields {
    AddPieces(map[], Taken(qs, o), DecodeBoth(o))
  }

  // ---------------------------------------------- the result, key by key

  function Values(f: Field): seq<Text> {
    if f.One? then [f.value] else f.values
  }

  /** The values of `key` among the non-empty pieces, in order. */
  function ValuesOf(pieces: seq<Text>, key: Text, read: Reader): seq<Text>
    decreases |pieces|
  {
    if pieces == [] then []
    else
      (if pieces[0] != [] && read(pieces[0]).0 == key then [read(pieces[0]).1] else [])
      + ValuesOf(pieces[1..], key, read)
  }

  ghost predicate Compact(obj: Fields) {
    forall k :: k in obj && obj[k].Many? ==> |obj[k].values| >= 2
  }

  function Held(obj: Fields, key: Text): seq<Text> {
    if key in obj then Values(obj[key]) else []
  }

  lemma AddCollects(obj: Fields, k: Text, v: Text)
    requires Compact(obj)
    ensures Compact(Add(obj, k, v))
    ensures forall key :: Held(Add(obj, k, v), key) == Held(obj, key) + (if key == k then [v] else [])
  {
  }

  /** Collecting appends, for every key, its values in order; a lone value stays a string. */
  lemma {:induction false} AddPiecesCollects(obj: Fields, pieces: seq<Text>, read: Reader)
    requires Compact(obj)
    ensures Compact(AddPieces(obj, pieces, read))
    ensures forall key :: Held(AddPieces(obj, pieces, read), key) == Held(obj, key) + ValuesOf(pieces, key, read)
    decreases |pieces|
  {
    hide Compact, Held, Add;
    if pieces != [] {
      AddCollects(obj, read(pieces[0]).0, read(pieces[0]).1);
      AddPiecesCollects(AddPiece(obj, pieces[0], read), pieces[1..], read);
    }
  }

  /** A parse result is determined by the values each key has. */
  lemma CompactUnique(a: Fields, b: Fields)
    requires Compact(a) && Compact(b) && forall key :: Held(a, key) == Held(b, key)
    ensures a == b
  {
    forall k ensures k in a <==> k in b {
      assert Held(a, k) == Held(b, k);
    }
    forall k | k in a ensures a[k] == b[k] {
      assert Held(a, k) == Held(b, k);
      assert a[k].One? <==> |Held(a, k)| == 1;
      assert b[k].One? <==> |Held(b, k)| == 1;
    }
  }
}
