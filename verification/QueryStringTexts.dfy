/** The texts of query strings: how they fall into pieces and parts, what stands for a space, and the usual separators. */
module QueryStringTexts {
  import opened CodeUnits
  import opened Results
  import opened PercentEncoding
  import opened PercentTexts
  import opened QueryString
  import opened QueryStringFlags
  import opened QueryStringRoundTrip

  // ---------------------------------------------------------- pieces and parts

  /** The pieces joined again are the text, and no separator is left in them. */
  lemma {:induction false} SplitJoined(s: Text, sep: CodeUnit)
    ensures Join(Split(s, sep), sep) == s
    ensures forall i :: 0 <= i < |Split(s, sep)| ==> sep !in Split(s, sep)[i]
    decreases |s|
  {
    hide Find, Join;
    var k := Find(s, sep);
    if k == |s| {
      JoinOne(s, sep);
    } else {
      SplitJoined(s[k + 1..], sep);
      JoinFront(s[..k], Split(s[k + 1..], sep), sep);
      assert s == s[..k] + [sep] + s[k + 1..];
    }
  }

  lemma JoinOne(piece: Text, sep: CodeUnit)
    ensures Join([piece], sep) == piece
  {
  }

  lemma {:induction false} JoinFront(piece: Text, pieces: seq<Text>, sep: CodeUnit)
    requires pieces != []
    ensures Join([piece] + pieces, sep) == piece + [sep] + Join(pieces, sep)
    decreases |pieces|
  {
    var all := [piece] + pieces;
    assert all[..|all| - 1] == [piece] + pieces[..|pieces| - 1];
    if |pieces| > 1 {
      JoinFront(piece, pieces[..|pieces| - 1], sep);
    } else {
      JoinOne(piece, sep);
      assert all[..1] == [piece];
    }
  }

  /** A piece is cut at its first `eq`; without one it is all key. */
  lemma CutParts(piece: Text, eq: CodeUnit)
    ensures var (k, v) := Cut(piece, eq);
            eq !in k && if eq in piece then piece == k + [eq] + v else piece == k && v == []
  {
    var at := Find(piece, eq);
    if at < |piece| {
      assert piece == piece[..at] + [piece[at]] + piece[at + 1..];
    }
  }

  // -------------------------------------------------------------------- spaces

  lemma UnplusFirst(s: Text, custom: bool)
    requires s != [] && s[0] != PLUS
    ensures Unplus(s, custom) == [s[0]] + Unplus(s[1..], custom)
  {
  }

  lemma UnplusPlus(s: Text, custom: bool)
    requires s != [] && s[0] == PLUS
    ensures Unplus(s, custom) == PlusText(custom) + Unplus(s[1..], custom)
  {
  }

  /** Putting in spaces breaks no encoded byte and makes none but spaces. */
  lemma UnplusByte(s: Text, custom: bool)
    ensures StartsEncoded(s) ==> StartsEncoded(Unplus(s, custom)) && EncodedByte(Unplus(s, custom)) == EncodedByte(s)
    ensures StartsEncoded(s) ==> Unplus(s, custom)[3..] == Unplus(s[3..], custom)
    ensures Continues(s) <==> Continues(Unplus(s, custom))
    ensures s != [] && s[0] == PERCENT ==> (StartsEncoded(s) <==> StartsEncoded(Unplus(s, custom)))
  {
    var u := Unplus(s, custom);
    if s == [] || s[0] == PLUS {
    } else {
      UnplusFirst(s, custom);
      if |s| > 1 && s[1] != PLUS {
        UnplusFirst(s[1..], custom);
        if |s| > 2 && s[2] != PLUS {
          UnplusFirst(s[2..], custom);
          assert s[1..][1..] == s[2..] && s[2..][1..] == s[3..];
          assert u == [s[0], s[1], s[2]] + Unplus(s[3..], custom);
        } else {
          assert u[1..] == Unplus(s[1..], custom) && s[1..][1..] == s[2..];
          assert |u| > 2 ==> u[2] == Unplus(s[2..], custom)[0];
        }
      }
    }
  }

  lemma UnplusPoint(s: Text, custom: bool)
    requires StartsEncoded(s)
    ensures StartsEncoded(Unplus(s, custom)) && ReadPoint(Unplus(s, custom)) == ReadPoint(s)
    ensures ReadPoint(s).Some? ==>
              Unplus(s, custom)[3 * ReadPoint(s).value.1..] == Unplus(s[3 * ReadPoint(s).value.1..], custom)
  {
    hide Unplus, EncodedByte, IsHex;
    UnplusByte(s, custom);
    UnplusByte(s[3..], custom);
    var u := Unplus(s, custom);
    if Continues(s[3..]) {
      assert s[6..] == s[3..][3..] && u[6..] == u[3..][3..];
      UnplusByte(s[6..], custom);
      if Continues(s[6..]) {
        assert s[9..] == s[6..][3..] && u[9..] == u[6..][3..];
        UnplusByte(s[9..], custom);
        if Continues(s[9..]) {
          assert s[12..] == s[9..][3..] && u[12..] == u[9..][3..];
        }
      }
    }
  }

  /** The space that a custom decoder is given encoded is the one that the default decoder is given as it is. */
  lemma {:induction false} SpacesAlike(s: Text)
    ensures DecodeUri(Unplus(s, true)) == DecodeUri(Unplus(s, false))
    decreases |s|
  {
    hide ReadPoint, Unplus, Units;
    if s == [] {
      UnplusNothing([], true);
      UnplusNothing([], false);
    } else if s[0] == PLUS {
      SpacesAlike(s[1..]);
      UnplusPlus(s, true);
      UnplusPlus(s, false);
      EncodedSpace(Unplus(s[1..], true));
      assert ([SPACE] + Unplus(s[1..], false))[1..] == Unplus(s[1..], false);
    } else if s[0] != PERCENT {
      SpacesAlike(s[1..]);
      UnplusFirst(s, true);
      UnplusFirst(s, false);
    } else {
      UnplusFirst(s, true);
      UnplusFirst(s, false);
      UnplusByte(s, true);
      UnplusByte(s, false);
      if StartsEncoded(s) && ReadPoint(s).Some? {
        SpacesAlike(s[3 * ReadPoint(s).value.1..]);
      }
      if StartsEncoded(s) {
        UnplusPoint(s, true);
        UnplusPoint(s, false);
      }
    }
  }

  lemma EncodedSpace(rest: Text)
    ensures DecodeUri(PlusText(true) + rest) == Prepend([SPACE], DecodeUri(rest))
  {
    assert PlusText(true) == Escaped(0x20);
    DecodeAscii(SPACE, rest);
  }

  // ------------------------------------------------------------ a custom decoder

  /** What `f` makes of a part, with its pluses encoded; an empty part is not decoded. */
  function DecodedBy(f: Decoder, part: Text): Text
    requires f(Unplus(part, true)).Some?
  {
    if part == [] then [] else f(Unplus(part, true)).value
  }

  /** The values of `key` among the pieces, as `f` decodes them. */
  function ValuesBy(f: Decoder, pieces: seq<Text>, key: Text, eq: CodeUnit): seq<Text>
    requires forall t :: f(t).Some?
  {
    if pieces == [] then []
    else
      var (k, v) := Cut(pieces[0], eq);
      (if pieces[0] != [] && DecodedBy(f, k) == key then [DecodedBy(f, v)] else []) + ValuesBy(f, pieces[1..], key, eq)
  }

  lemma {:induction false} ReadBy(f: Decoder, pieces: seq<Text>, key: Text, o: Options)
    requires o.decoder == Some(f) && forall t :: f(t).Some?
    ensures ValuesOf(pieces, key, DecodeBoth(o)) == ValuesBy(f, pieces, key, o.eq)
    decreases |pieces|
  {
    hide Cut;
    if pieces != [] {
      ReadBy(f, pieces[1..], key, o);
      var (k, v) := Cut(pieces[0], o.eq);
      PartBy(f, k, o);
      PartBy(f, v, o);
    }
  }

  lemma PartBy(f: Decoder, part: Text, o: Options)
    requires o.decoder == Some(f) && f(Unplus(part, true)).Some?
    ensures ReadPart(part, true, o) == DecodedBy(f, part)
  {
    if part != [] && part[0] == PLUS {
      assert Unplus(part, true) != [];
    }
  }

  /** A custom decoder that returns decodes every part of every piece taken in, and the values of a key keep their order. */
  lemma {:induction false} CustomParse(qs: Text, o: Options, f: Decoder, key: Text)
    requires o.decoder == Some(f) && forall t :: f(t).Some?
    ensures Held(LazyParse(qs, o), key) == ValuesBy(f, Taken(qs, o), key, o.eq)
  {
    hide LazyParse, Held, Taken, AddPieces, Compact;
    LazyExactly(qs, o);
    NothingHeld();
    AddPiecesCollects(map[], Taken(qs, o), DecodeBoth(o));
    ReadBy(f, Taken(qs, o), key, o);
    NothingFor(key);
    assert [] + ValuesOf(Taken(qs, o), key, DecodeBoth(o)) == ValuesOf(Taken(qs, o), key, DecodeBoth(o));
  }

  lemma NothingFor(key: Text)
    ensures Held(map[], key) == []
  {
  }

  /** Byte by byte, too, the encoded space is the space. */
  lemma {:induction false} SpaceBytes(s: Text)
    ensures UnescapeBytes(Unplus(s, true), true) == UnescapeBytes(Unplus(s, false), false)
    decreases |s|
  {
    hide Unplus, EncodedByte, StartsEncoded, UnescapeBytes;
    if s == [] {
      UnplusNothing([], true);
      UnplusNothing([], false);
      NoBytes();
    } else {
      SpaceBytes(s[1..]);
      if s[0] == PLUS {
        UnplusPlus(s, true);
        UnplusPlus(s, false);
        SpaceByte(Unplus(s[1..], true), Unplus(s[1..], false));
      } else {
        UnplusFirst(s, true);
        UnplusFirst(s, false);
        UnplusByte(s, true);
        UnplusByte(s, false);
        EncodedOrNot(s);
        if StartsEncoded(s) {
          SpaceBytes(s[3..]);
        }
        FirstByte(Unplus(s, true), true);
        FirstByte(Unplus(s, false), false);
      }
    }
  }

  lemma NoBytes()
    ensures UnescapeBytes([], true) == [] == UnescapeBytes([], false)
  {
  }

  lemma EncodedOrNot(s: Text)
    requires s != [] && s[0] != PLUS
    ensures forall custom :: StartsEncoded(s) <==> StartsEncoded(Unplus(s, custom))
    ensures StartsEncoded(s) ==> |s| >= 3
  {
    hide Unplus;
    UnplusFirst(s, true);
    UnplusFirst(s, false);
    UnplusByte(s, true);
    UnplusByte(s, false);
  }

  lemma FirstByte(u: Text, spaces: bool)
    requires u != [] && u[0] != PLUS
    ensures UnescapeBytes(u, spaces) ==
            if StartsEncoded(u) then [EncodedByte(u)] + UnescapeBytes(u[3..], spaces)
            else [u[0] % 256] + UnescapeBytes(u[1..], spaces)
  {
  }

  lemma SpaceByte(rest: Text, rest': Text)
    ensures UnescapeBytes(PlusText(true) + rest, true) == [32] + UnescapeBytes(rest, true)
    ensures UnescapeBytes(PlusText(false) + rest', false) == [32] + UnescapeBytes(rest', false)
  {
    hide UnescapeBytes;
    assert PlusText(true) == Escaped(0x20);
    ReadEscaped(0x20, rest);
    FirstByte(PlusText(true) + rest, true);
    assert (PlusText(false) + rest')[1..] == rest';
    FirstByte(PlusText(false) + rest', false);
  }

  /** Where a custom decoder throws, the part is read as without one. */
  lemma ThrowingDecoder(part: Text, o: Options)
    requires o.decoder.Some? && o.decoder.value(Unplus(part, true)).None?
    ensures ReadPart(part, true, o) == ReadPart(part, true, o.(decoder := None))
  {
    hide DecodeUri, UnescapeBytes, Utf8Text;
    SpacesAlike(part);
    SpaceBytes(part);
    if part != [] {
      SomePart(part);
    } else {
      UnplusNothing([], true);
      UnplusNothing([], false);
    }
  }

  lemma SomePart(part: Text)
    requires part != []
    ensures Unplus(part, true) != [] && Unplus(part, false) != []
  {
    if part[0] == PLUS {
      UnplusPlus(part, true);
      UnplusPlus(part, false);
    }
  }

  // -------------------------------------------------------- the usual separators

  /** "&" and "=" are separators that escaping never leaves in a text. */
  lemma DefaultOptions()
    ensures PLAIN == Options('&' as int, '=' as int, 1000, None) && Default(PLAIN)
  {
  }

  /** So `parse(stringify(obj))` is `obj`, under the conditions of `RoundTrip`, for calls without options. */
  lemma RoundTripPlain(obj: Entries)
    requires Distinct(obj)
    ensures Stringify(obj, '&' as int, '=' as int).Some?
            && LazyParse(Stringify(obj, '&' as int, '=' as int).value, PLAIN) == AsMap(obj)
            <==> AllWellFormed(obj) && NoShortArrays(obj) && Count(obj) <= 1000
  {
    hide LazyParse, Stringify, AllWellFormed, NoShortArrays, Count;
    DefaultOptions();
    RoundTrip(obj, PLAIN);
  }

  /** `{a: 'b&c'}` is written with its "&" escaped. */
  lemma WrittenAmpersand()
    ensures Stringify([(Ascii("a"), One(Ascii("b&c")))], '&' as int, '=' as int) == Some(Ascii("a=b%26c"))
  {
    hide Escape, Escaped;
    var a, b, c, amp, eq := 'a' as int, 'b' as int, 'c' as int, '&' as int, '=' as int;
    assert Ascii("b&c") == [b] + ([amp] + ([c] + [])) && Ascii("a") == [a] + [];
    AmpersandByte();
    EscapeNothing();
    EscapeOne(c, []);
    EscapeOne(amp, [c] + []);
    EscapeOne(b, [amp] + ([c] + []));
    EscapeOne(a, []);
    assert [b] + (Escaped(amp) + ([c] + [])) == Ascii("b%26c");
    OneEntry(Ascii("a"), Ascii("b&c"), Ascii("a"), Ascii("b%26c"), eq, amp);
    assert Ascii("a") + [eq] + Ascii("b%26c") == Ascii("a=b%26c");
  }

  lemma AmpersandByte()
    ensures Escaped('&' as int) == ['%' as int, '2' as int, '6' as int]
    ensures !Unreserved('&' as int) && Unreserved('a' as int) && Unreserved('b' as int) && Unreserved('c' as int)
  {
  }

  lemma EscapeNothing()
    ensures Escape([]) == Some([])
  {
  }

  lemma OneEntry(k: Text, v: Text, ek: Text, ev: Text, eq: CodeUnit, sep: CodeUnit)
    requires Escape(k) == Some(ek) && Escape(v) == Some(ev)
    ensures Stringify([(k, One(v))], sep, eq) == Some(ek + [eq] + ev)
  {
    hide Escape;
    var obj: Entries := [(k, One(v))];
    assert Values(One(v)) == [v] && [v][1..] == [] && obj[1..] == [];
    assert EntryPieces(ek, [v], eq) == Some([ek + [eq] + ev] + []);
    assert Pieces(obj, eq) == Some([ek + [eq] + ev] + [] + []);
    JoinOne(ek + [eq] + ev, sep);
  }

  lemma EscapeOne(c: CodeUnit, rest: Text)
    requires c < 0x80 && Escape(rest).Some?
    ensures Escape([c] + rest) == Some((if Unreserved(c) then [c] else Escaped(c)) + Escape(rest).value)
  {
    hide Unreserved, NoEscape;
    TableUnreserved(c);
    assert ([c] + rest)[1..] == rest;
  }
}
