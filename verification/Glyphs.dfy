/**
 What a JSON string may look like (section 7 of RFC 8259), stated without the reader: a
 sequence of glyphs, each of them a plain byte or an escape, between two quotes. The reader
 of lib/parson.c accepts exactly these, and the serializer writes one of them.
 */
module Glyphs {
  import opened Bytes
  import opened Utf8
  import opened Strings
  import opened Numbers

  // --- The grammar of strings -----------------------------------------------------

  /** One character of a string as it may be spelled (section 7 of RFC 8259). */
  datatype Glyph =
    | Plain(c: byte)
    | Short(letter: byte)
    | Code(digits: Bytes)
    | Pair(lead: Bytes, trail: Bytes)

  predicate IsHex4(h: Bytes) {
    |h| == 4 && IsHex(h[0]) && IsHex(h[1]) && IsHex(h[2]) && IsHex(h[3])
  }

  function Number16(h: Bytes): (n: nat)
    requires IsHex4(h)
    ensures n < 0x10000
  {
    ((HexValue(h[0]) * 16 + HexValue(h[1])) * 16 + HexValue(h[2])) * 16 + HexValue(h[3])
  }

  predicate Legal(g: Glyph) {
    match g
    case Plain(c) => c >= 0x20 && c != QUOTE && c != BACKSLASH
    case Short(l) => l in {QUOTE, BACKSLASH, SLASH, LOWER_B, LOWER_F, LOWER_N, LOWER_R, LOWER_T}
    case Code(h) => IsHex4(h) && !(0xD800 <= Number16(h) <= 0xDFFF)
    case Pair(l, t) =>
      && IsHex4(l) && 0xD800 <= Number16(l) <= 0xDBFF
      && IsHex4(t) && 0xDC00 <= Number16(t) <= 0xDFFF
  }

  function Spell(g: Glyph): Bytes {
    match g
    case Plain(c) => [c]
    case Short(l) => [BACKSLASH, l]
    case Code(h) => [BACKSLASH, LOWER_U] + h
    case Pair(l, t) => [BACKSLASH, LOWER_U] + l + [BACKSLASH, LOWER_U] + t
  }

  function Mean(g: Glyph): Bytes
    requires Legal(g)
  {
    match g
    case Plain(c) => [c]
    case Short(l) =>
      if l == LOWER_B then [8] else if l == LOWER_F then [12] else if l == LOWER_N then [10]
      else if l == LOWER_R then [13] else if l == LOWER_T then [9] else [l]
    case Code(h) => Encode(Number16(h))
    case Pair(l, t) => Encode(Combine(Number16(l), Number16(t)))
  }

  predicate AllLegal(gs: seq<Glyph>) {
    forall i :: 0 <= i < |gs| ==> Legal(gs[i])
  }

  function SpellAll(gs: seq<Glyph>): Bytes {
    if gs == [] then [] else Spell(gs[0]) + SpellAll(gs[1..])
  }

  function MeanAll(gs: seq<Glyph>): Bytes
    requires AllLegal(gs)
  {
    if gs == [] then [] else Mean(gs[0]) + MeanAll(gs[1..])
  }

  /** A string token, and the C string it stands for. */
  function StringToken(gs: seq<Glyph>): Bytes {
    [QUOTE] + SpellAll(gs) + [QUOTE]
  }

  function StringValue(gs: seq<Glyph>): Bytes
    requires AllLegal(gs)
  {
    CString(MeanAll(gs))
  }

  lemma HexDigits(h: Bytes, t: Bytes)
    requires |h| == 4
    ensures IsHex4(h) ==> Hex4(h + t) == Some(Number16(h))
    ensures !IsHex4(h) ==> Hex4(h + t) == None
    ensures IsHex4(h) ==> forall i :: 0 <= i < 4 ==> h[i] != 0 && h[i] != QUOTE && h[i] != BACKSLASH
  {
  }

  lemma {:induction false} PairReads(l: Bytes, t: Bytes, more: Bytes)
    requires Legal(Pair(l, t))
    ensures UnescapeOne(Spell(Pair(l, t)) + more) == Some(Chunk(Mean(Pair(l, t)), 12))
    ensures SkipBody(Spell(Pair(l, t)) + more) == SkipBody(more)
  {
    hide SkipBody, Encode, Hex4;
    var u := [BACKSLASH, LOWER_U];
    var s := Spell(Pair(l, t)) + more;
    var tail := u + (t + more);
    assert s[2..] == l + tail;
    assert s[2..][6..] == t + more;
    assert s[2..][4] == BACKSLASH && s[2..][5] == LOWER_U;
    HexDigits(l, tail);
    HexDigits(t, more);
    assert s == u + (l + tail);
    SkipOverPair(LOWER_U, l + tail);
    SkipOverPlain(l, tail);
    SkipOverPair(LOWER_U, t + more);
    SkipOverPlain(t, more);
  }

  lemma CodeReads(h: Bytes, more: Bytes)
    requires Legal(Code(h))
    ensures UnescapeOne(Spell(Code(h)) + more) == Some(Chunk(Mean(Code(h)), 6))
    ensures SkipBody(Spell(Code(h)) + more) == SkipBody(more)
  {
    hide SkipBody, Encode, Hex4;
    var s := Spell(Code(h)) + more;
    assert s[2..] == h + more;
    HexDigits(h, more);
    assert s == [BACKSLASH, LOWER_U] + (h + more);
    SkipOverPair(LOWER_U, h + more);
    SkipOverPlain(h, more);
  }

  /** A legal glyph is decoded in one step, which the search for the closing quote also steps over. */
  lemma GlyphReads(g: Glyph, more: Bytes)
    requires Legal(g)
    ensures UnescapeOne(Spell(g) + more) == Some(Chunk(Mean(g), |Spell(g)|))
    ensures SkipBody(Spell(g) + more) == SkipBody(more)
  {
    hide SkipBody, Encode, Hex4, Utf16;
    match g
    case Plain(c) => SkipOverPlain([c], more);
    case Short(l) => SkipOverPair(l, more);
    case Code(h) => CodeReads(h, more);
    case Pair(l, t) => PairReads(l, t, more);
  }

  lemma {:induction false} GlyphsRead(gs: seq<Glyph>, rest: Bytes)
    requires AllLegal(gs)
    ensures Unescape(SpellAll(gs)) == Some(MeanAll(gs))
    ensures SkipBody(SpellAll(gs) + [QUOTE] + rest) == Some(rest)
  {
    hide UnescapeOne, Legal, Spell, Mean;
    if gs == [] {
      assert [] + [QUOTE] + rest == [QUOTE] + rest;
    } else {
      var g, more := gs[0], SpellAll(gs[1..]);
      GlyphsRead(gs[1..], rest);
      GlyphReads(g, more);
      GlyphReads(g, more + [QUOTE] + rest);
      assert Spell(g) + more + [QUOTE] + rest == Spell(g) + (more + [QUOTE] + rest);
      assert (Spell(g) + more)[|Spell(g)|..] == more;
      assert SpellAll(gs) != [];
    }
  }

  /** Every legal spelling of a string is read, whatever follows. */
  lemma StringTokenReads(gs: seq<Glyph>, rest: Bytes)
    requires AllLegal(gs)
    ensures GetQuoted(StringToken(gs) + rest) == Some(Read(StringValue(gs), rest))
  {
    hide Unescape, SkipBody, SpellAll, MeanAll, CString;
    var s := StringToken(gs) + rest;
    assert s[1..] == SpellAll(gs) + [QUOTE] + rest;
    GlyphsRead(gs, rest);
    assert s[1..|s| - |rest| - 1] == SpellAll(gs);
  }

  /** The glyph that one decoding step reads. */
  lemma NextGlyph(body: Bytes) returns (g: Glyph)
    requires body != [] && body[0] != QUOTE && UnescapeOne(body).Some?
    ensures Legal(g)
    ensures body == Spell(g) + body[UnescapeOne(body).value.used..]
    ensures UnescapeOne(body) == Some(Chunk(Mean(g), |Spell(g)|))
  {
    hide Encode, Utf16;
    if body[0] != BACKSLASH {
      g := Plain(body[0]);
    } else if body[1] != LOWER_U {
      g := Short(body[1]);
    } else {
      g := NextCode(body[2..]);
      assert body == [BACKSLASH, LOWER_U] + body[2..];
    }
  }

  lemma NextCode(s: Bytes) returns (g: Glyph)
    requires Utf16(s).Some?
    ensures Legal(g) && (g.Code? || g.Pair?)
    ensures [BACKSLASH, LOWER_U] + s == Spell(g) + s[Utf16(s).value.used..]
    ensures Utf16(s).value.used + 2 == |Spell(g)| && Encode(Utf16(s).value.cp) == Mean(g)
  {
    hide Encode, Hex4;
    assert Hex4(s).Some?;
    assert s == s[..4] + s[4..];
    HexDigits(s[..4], s[4..]);
    if Utf16(s).value.used == 4 {
      g := Code(s[..4]);
    } else {
      var t := s[6..];
      assert Hex4(t).Some?;
      assert t == t[..4] + t[4..];
      HexDigits(t[..4], t[4..]);
      g := Pair(s[..4], t[..4]);
      assert s[4..] == [BACKSLASH, LOWER_U] + t && s[10..] == t[4..];
    }
  }

  lemma {:induction false} ReadGlyphs(body: Bytes, rest: Bytes) returns (gs: seq<Glyph>)
    requires SkipBody(body + [QUOTE] + rest) == Some(rest) && Unescape(body).Some?
    ensures AllLegal(gs) && body == SpellAll(gs) && Unescape(body).value == MeanAll(gs)
  {
    hide UnescapeOne, Legal, Spell, Mean;
    if body == [] {
      gs := [];
    } else {
      assert body[0] != QUOTE by {
        assert (body + [QUOTE] + rest)[0] == body[0];
      }
      var used := UnescapeOne(body).value.used;
      var more := body[used..];
      var g := NextGlyph(body);
      GlyphReads(g, more + [QUOTE] + rest);
      assert body + [QUOTE] + rest == Spell(g) + (more + [QUOTE] + rest);
      var hs := ReadGlyphs(more, rest);
      gs := [g] + hs;
      assert gs[1..] == hs;
    }
  }

  /** Only legal spellings of strings are read. */
  lemma QuotedIsStringToken(s: Bytes) returns (gs: seq<Glyph>)
    requires GetQuoted(s).Some?
    ensures AllLegal(gs) && GetQuoted(s).value.value == StringValue(gs)
    ensures s == StringToken(gs) + GetQuoted(s).value.rest
  {
    hide Unescape, SkipBody, CString, SpellAll, MeanAll;
    var rest := SkipQuotes(s).value;
    SkipBodyLeavesSuffix(s[1..]);
    var body := s[1..|s| - |rest| - 1];
    var k := |s[1..]| - |rest|;
    assert s[1..][k..] == s[k + 1..];
    assert s[1..] == body + [QUOTE] + rest;
    gs := ReadGlyphs(body, rest);
  }

  /** `get_quoted_string` reads exactly the string tokens of the grammar. */
  lemma GetQuotedIff(s: Bytes, v: Bytes, rest: Bytes)
    ensures GetQuoted(s) == Some(Read(v, rest)) <==>
      exists gs :: AllLegal(gs) && StringValue(gs) == v && s == StringToken(gs) + rest
  {
    hide GetQuoted, StringToken, StringValue, AllLegal;
    if GetQuoted(s) == Some(Read(v, rest)) {
      var gs := QuotedIsStringToken(s);
    }
    forall gs | AllLegal(gs) && StringValue(gs) == v && s == StringToken(gs) + rest
      ensures GetQuoted(s) == Some(Read(v, rest))
    {
      StringTokenReads(gs, rest);
    }
  }

  // --- The serializer's spelling --------------------------------------------------

  /** How the serializer spells a byte. */
  function CanonicalGlyph(c: byte): Glyph {
    if c == QUOTE || c == BACKSLASH || c == SLASH then Short(c)
    else if c == 8 then Short(LOWER_B)
    else if c == 12 then Short(LOWER_F)
    else if c == 10 then Short(LOWER_N)
    else if c == 13 then Short(LOWER_R)
    else if c == 9 then Short(LOWER_T)
    else if c < 0x20 then Code([ZERO, ZERO, HexDigit(c as int / 16), HexDigit(c as int % 16)])
    else Plain(c)
  }

  function CanonicalGlyphs(s: Bytes): seq<Glyph> {
    if s == [] then [] else [CanonicalGlyph(s[0])] + CanonicalGlyphs(s[1..])
  }

  lemma GlyphOfByte(c: byte)
    ensures Legal(CanonicalGlyph(c)) && Spell(CanonicalGlyph(c)) == Escape(c) && Mean(CanonicalGlyph(c)) == [c]
  {
  }

  lemma {:induction false} GlyphsOfText(s: Bytes)
    ensures AllLegal(CanonicalGlyphs(s))
    ensures SpellAll(CanonicalGlyphs(s)) == EscapeAll(s) && MeanAll(CanonicalGlyphs(s)) == s
  {
    hide Legal, Spell, Mean, CanonicalGlyph, Escape;
    if s != [] {
      GlyphOfByte(s[0]);
      GlyphsOfText(s[1..]);
      assert CanonicalGlyphs(s)[1..] == CanonicalGlyphs(s[1..]);
      assert [s[0]] + s[1..] == s;
    }
  }

  /** A printed string is a legal token for the string. */
  lemma QuotedIsCanonical(s: Bytes)
    ensures AllLegal(CanonicalGlyphs(s)) && StringToken(CanonicalGlyphs(s)) == Quoted(s)
    ensures NulFree(s) ==> StringValue(CanonicalGlyphs(s)) == s
  {
    GlyphsOfText(s);
    if NulFree(s) {
      CStringOfNulFree(s);
    }
  }

  /** No upper-case hexadecimal digit. */
  predicate LowerCase(g: Glyph) {
    match g
    case Code(h) => forall i :: 0 <= i < |h| ==> !(0x41 <= h[i] <= 0x46)
    case Pair(l, t) =>
      (forall i :: 0 <= i < |l| ==> !(0x41 <= l[i] <= 0x46)) && forall i :: 0 <= i < |t| ==> !(0x41 <= t[i] <= 0x46)
    case _ => true
  }

  lemma LowerDigits(h: Bytes)
    requires |h| == 4 && LowerHex4(h)
    ensures h == [HexDigit(HexValue(h[0])), HexDigit(HexValue(h[1])), HexDigit(HexValue(h[2])), HexDigit(HexValue(h[3]))]
  {
    hide HexDigit, HexValue;
    DigitOfValue(h[0]);
    DigitOfValue(h[1]);
    DigitOfValue(h[2]);
    DigitOfValue(h[3]);
  }

  lemma DigitOfValue(c: byte)
    requires IsHex(c) && !(0x41 <= c <= 0x46)
    ensures 0 <= HexValue(c) < 16 && c == HexDigit(HexValue(c))
  {
  }

  /**
   Which of the legal spellings the serializer picks: the shortest, in lower case, except
   that a slash is never left bare.
   */
  lemma EscapeIsShortest(c: byte, g: Glyph)
    requires Legal(g) && Mean(g) == [c] && g != Plain(SLASH)
    ensures |Spell(g)| >= |Escape(c)|
    ensures LowerCase(g) && |Spell(g)| == |Escape(c)| ==> Spell(g) == Escape(c)
  {
    match g
    case Code(h) =>
      assert Number16(h) == c as int;
      if LowerCase(g) && c < 0x20 {
        LowerDigits(h);
        assert HexValue(h[0]) == 0 && HexValue(h[1]) == 0;
        assert HexValue(h[2]) == c as int / 16 && HexValue(h[3]) == c as int % 16;
      }
    case _ =>
  }

  /** That spelling is itself legal, in lower case, and no bare slash. */
  lemma EscapeIsLegal(c: byte)
    ensures exists g :: Legal(g) && Mean(g) == [c] && g != Plain(SLASH) && LowerCase(g) && Spell(g) == Escape(c)
  {
    GlyphOfByte(c);
    var g := CanonicalGlyph(c);
    if g.Code? {
      assert LowerCase(g) by {
        LowerDigit(c as int / 16);
        LowerDigit(c as int % 16);
      }
    }
    assert g != Plain(SLASH) && LowerCase(g);
  }

  lemma LowerDigit(n: int)
    requires 0 <= n < 16
    ensures !(0x41 <= HexDigit(n) <= 0x46)
  {
  }

  predicate LowerHex4(h: Bytes) {
    IsHex4(h) && LowerCase(Code(h))
  }

  lemma TidyCode(t: Bytes, i: nat)
    requires |t| >= 6 && LowerHex4(t[2..6]) && t[0] == BACKSLASH && t[1] == LOWER_U && i < 6
    ensures t[i] != SLASH
  {
    if i >= 2 {
      assert t[i] == t[2..6][i - 2];
    }
  }

  /** Read escape by escape: a slash occurs only behind its backslash, and digits are in lower case. */
  predicate Tidy(t: Bytes)
    decreases |t|
  {
    || t == []
    || if t[0] == BACKSLASH then
         && |t| >= 2
         && if t[1] == LOWER_U then |t| >= 6 && LowerHex4(t[2..6]) && Tidy(t[6..]) else Tidy(t[2..])
       else t[0] != SLASH && Tidy(t[1..])
  }

  lemma {:induction false} TidyConcat(s: Bytes, t: Bytes)
    requires Tidy(s) && Tidy(t)
    ensures Tidy(s + t)
    decreases |s|
  {
    hide LowerHex4;
    var u := s + t;
    if s == [] {
      assert u == t;
    } else if s[0] != BACKSLASH {
      assert u[1..] == s[1..] + t;
      TidyConcat(s[1..], t);
    } else if s[1] == LOWER_U {
      assert u[2..6] == s[2..6] && u[6..] == s[6..] + t;
      TidyConcat(s[6..], t);
    } else {
      assert u[2..] == s[2..] + t;
      TidyConcat(s[2..], t);
    }
  }

  lemma {:induction false} TidySlash(t: Bytes, i: nat)
    requires Tidy(t) && i < |t| && t[i] == SLASH
    ensures i > 0 && t[i - 1] == BACKSLASH
    decreases |t|
  {
    hide LowerHex4;
    if t[0] != BACKSLASH {
      TidySlash(t[1..], i - 1);
    } else if t[1] == LOWER_U {
      if i >= 6 {
        TidySlash(t[6..], i - 6);
      } else {
        TidyCode(t, i);
      }
    } else if i >= 2 {
      TidySlash(t[2..], i - 2);
    }
  }

  lemma EscapeIsTidy(c: byte)
    ensures Tidy(Escape(c)) && forall i :: 0 <= i < |Escape(c)| ==> Escape(c)[i] >= 0x20
  {
    var e := Escape(c);
    if |e| == 6 {
      LowerDigit(c as int / 16);
      LowerDigit(c as int % 16);
      assert e[6..] == [];
    } else if |e| == 2 {
      assert e[2..] == [];
    } else {
      assert e[1..] == [];
    }
  }

  /** A printed string, escape by escape. */
  lemma {:induction false} EscapeAllIsTidy(s: Bytes)
    ensures Tidy(EscapeAll(s)) && forall i :: 0 <= i < |EscapeAll(s)| ==> EscapeAll(s)[i] >= 0x20
  {
    hide Tidy, Escape;
    if s == [] {
      NothingIsTidy();
    } else {
      EscapeIsTidy(s[0]);
      EscapeAllIsTidy(s[1..]);
      TidyConcat(Escape(s[0]), EscapeAll(s[1..]));
    }
  }

  lemma NothingIsTidy()
    ensures Tidy([])
  {
  }

  /** Reading a printed string gives the string back and stops right after it, whatever follows. */
  lemma QuotedRoundTrip(s: Bytes, rest: Bytes)
    requires NulFree(s)
    ensures GetQuoted(Quoted(s) + rest) == Some(Read(s, rest))
  {
    hide GetQuoted, Quoted, StringValue;
    QuotedIsCanonical(s);
    StringTokenReads(CanonicalGlyphs(s), rest);
  }

  /** No two strings print alike, even as prefixes of longer texts. */
  lemma QuotedIsPrefixFree(s1: Bytes, rest1: Bytes, s2: Bytes, rest2: Bytes)
    requires NulFree(s1) && NulFree(s2)
    requires Quoted(s1) + rest1 == Quoted(s2) + rest2
    ensures s1 == s2 && rest1 == rest2
  {
    QuotedRoundTrip(s1, rest1);
    QuotedRoundTrip(s2, rest2);
  }
}
