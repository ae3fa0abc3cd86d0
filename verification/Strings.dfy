/**
 The string codec of lib/parson.c: escaping when a string is printed, finding the closing
 quote and undoing the escapes when it is read.
 */
module Strings {
  import opened Bytes
  import opened Utf8

  // --- Printing -------------------------------------------------------------------

  /** A lower-case hexadecimal digit. */
  function HexDigit(n: int): byte
    requires 0 <= n < 16
  {
    if n < 10 then (0x30 + n) as byte else (0x57 + n) as byte
  }

  /** What `json_serialize_string` appends for one byte. */
  function Escape(c: byte): (r: Bytes)
    ensures 1 <= |r| <= 6
  {
    if c == QUOTE then [BACKSLASH, QUOTE]
    else if c == BACKSLASH then [BACKSLASH, BACKSLASH]
    else if c == SLASH then [BACKSLASH, SLASH]
    else if c == 8 then [BACKSLASH, LOWER_B]
    else if c == 12 then [BACKSLASH, LOWER_F]
    else if c == 10 then [BACKSLASH, LOWER_N]
    else if c == 13 then [BACKSLASH, LOWER_R]
    else if c == 9 then [BACKSLASH, LOWER_T]
    else if c < 0x20 then [BACKSLASH, LOWER_U, ZERO, ZERO, HexDigit(c as int / 16), HexDigit(c as int % 16)]
    else [c]
  }

  function EscapeAll(s: Bytes): Bytes {
    if s == [] then [] else Escape(s[0]) + EscapeAll(s[1..])
  }

  /** A string as the serializer writes it. */
  function Quoted(s: Bytes): Bytes {
    [QUOTE] + EscapeAll(s) + [QUOTE]
  }

  // --- Finding the closing quote --------------------------------------------------

  /** The loop of `skip_quotes`: what follows the first unescaped quote. */
  function SkipBody(s: Bytes): (r: Option<Bytes>)
    ensures r.Some? ==> |r.value| < |s|
  {
    if Peek(s) == 0 then None
    else if s[0] == QUOTE then Some(s[1..])
    else if s[0] == BACKSLASH then
      if Peek(s[1..]) == 0 then None else SkipBody(s[2..])
    else SkipBody(s[1..])
  }

  lemma {:induction false} SkipBodyLeavesSuffix(s: Bytes)
    requires SkipBody(s).Some?
    ensures s[|s| - |SkipBody(s).value|..] == SkipBody(s).value
    ensures s[|s| - |SkipBody(s).value| - 1] == QUOTE
  {
    if s[0] == BACKSLASH {
      SkipBodyLeavesSuffix(s[2..]);
    } else if s[0] != QUOTE {
      SkipBodyLeavesSuffix(s[1..]);
    }
  }

  function SkipQuotes(s: Bytes): (r: Option<Bytes>)
    ensures r.Some? ==> |r.value| + 2 <= |s|
  {
    if Peek(s) != QUOTE then None else SkipBody(s[1..])
  }

  // --- Undoing the escapes --------------------------------------------------------

  /** `hex_char_to_int`. */
  function HexValue(c: byte): (r: int)
    ensures -1 <= r < 16
  {
    if 0x30 <= c <= 0x39 then c as int - 0x30
    else if 0x61 <= c <= 0x66 then c as int - 0x61 + 10
    else if 0x41 <= c <= 0x46 then c as int - 0x41 + 10
    else -1
  }

  /** `parse_utf16_hex` on the bytes before the closing quote. */
  function Hex4(s: Bytes): (r: Option<int>)
    ensures r.Some? ==> 0 <= r.value < 0x10000 && |s| >= 4
  {
    if |s| < 4 then None
    else
      var x1, x2, x3, x4 := HexValue(s[0]), HexValue(s[1]), HexValue(s[2]), HexValue(s[3]);
      if x1 == -1 || x2 == -1 || x3 == -1 || x4 == -1 then None
      else Some(x1 * 4096 + x2 * 256 + x3 * 16 + x4)
  }

  /** The code point of a surrogate pair, section 2.2 of RFC 2781. */
  function Combine(lead: int, trail: int): (cp: int)
    requires 0xD800 <= lead <= 0xDBFF && 0xDC00 <= trail <= 0xDFFF
    ensures 0x10000 <= cp <= 0x10FFFF
  {
    0x10000 + (lead - 0xD800) * 1024 + (trail - 0xDC00)
  }

  /** The shifts of `parse_utf16_hex`. */
  lemma HexBits(x1: bv32, x2: bv32, x3: bv32, x4: bv32)
    requires x1 < 16 && x2 < 16 && x3 < 16 && x4 < 16
    ensures (x1 << 12) | (x2 << 8) | (x3 << 4) | x4 == x1 * 4096 + x2 * 256 + x3 * 16 + x4
  {
  }

  /** The masks and the shift that combine a surrogate pair. */
  lemma SurrogateBits(lead: bv32, trail: bv32)
    requires 0xD800 <= lead <= 0xDBFF && 0xDC00 <= trail <= 0xDFFF
    ensures ((((lead - 0xD800) & 0x3FF) << 10) | ((trail - 0xDC00) & 0x3FF)) + 0x010000
      == 0x10000 + (lead - 0xD800) * 1024 + (trail - 0xDC00)
  {
  }

  // --- What the digits and the pairs mean -----------------------------------------

  /** The digits the serializer uses, in order. */
  lemma HexDigits16(n: int)
    requires 0 <= n < 16
    ensures HexDigit(n) as int == "0123456789abcdef"[n] as int && HexValue(HexDigit(n)) == n
  {
  }

  /** Both cases of a letter are the same digit, and nothing else is a digit. */
  lemma HexLetterCase(c: byte)
    ensures 0x41 <= c <= 0x46 ==> HexValue(c) == HexValue(c + 0x20) == c as int - 55
    ensures HexValue(c) >= 0 <==> exists n :: 0 <= n < 16 && (c == HexDigit(n) || (n >= 10 && c as int + 0x20 == HexDigit(n) as int))
  {
    if HexValue(c) >= 0 {
      var n := HexValue(c);
      assert c == HexDigit(n) || (n >= 10 && c as int + 0x20 == HexDigit(n) as int);
    }
  }

  /** Four digits are read in the order they are written, the most significant first. */
  lemma Hex4ReadsDigits(a: int, b: int, c: int, d: int, rest: Bytes)
    requires 0 <= a < 16 && 0 <= b < 16 && 0 <= c < 16 && 0 <= d < 16
    ensures Hex4([HexDigit(a), HexDigit(b), HexDigit(c), HexDigit(d)] + rest) == Some(((a * 16 + b) * 16 + c) * 16 + d)
  {
    hide HexDigit, HexValue;
    HexDigits16(a);
    HexDigits16(b);
    HexDigits16(c);
    HexDigits16(d);
  }

  /** The surrogates of a code point beyond the basic plane, section 2.1 of RFC 2781. */
  function Lead(cp: int): int {
    0xD800 + (cp - 0x10000) / 0x400
  }

  function Trail(cp: int): int {
    0xDC00 + (cp - 0x10000) % 0x400
  }

  /** Combining a pair is the inverse of splitting a code point. */
  lemma CombineInvertsSplit(cp: int, lead: int, trail: int)
    requires 0x10000 <= cp <= 0x10FFFF && 0xD800 <= lead <= 0xDBFF && 0xDC00 <= trail <= 0xDFFF
    ensures 0xD800 <= Lead(cp) <= 0xDBFF && 0xDC00 <= Trail(cp) <= 0xDFFF
    ensures Combine(lead, trail) == cp <==> lead == Lead(cp) && trail == Trail(cp)
  {
  }

  /** Pairs are ordered as their code points, the lead first. */
  lemma CombineIncreases(l1: int, t1: int, l2: int, t2: int)
    requires 0xD800 <= l1 <= 0xDBFF && 0xDC00 <= t1 <= 0xDFFF
    requires 0xD800 <= l2 <= 0xDBFF && 0xDC00 <= t2 <= 0xDFFF
    ensures Combine(l1, t1) < Combine(l2, t2) <==> l1 < l2 || (l1 == l2 && t1 < t2)
  {
  }

  /** A code point and the number of bytes that spell it after the `\u`. */
  datatype Unit = Unit(cp: int, used: nat)

  /** `parse_utf16` after the `u`: one escape, or the two of a surrogate pair. */
  function Utf16(s: Bytes): (r: Option<Unit>)
    ensures r.Some? ==> Scalar(r.value.cp) && r.value.used <= |s|
    ensures r.Some? ==> |Encode(r.value.cp)| < r.value.used
  {
    match Hex4(s)
    case None => None
    case Some(cp) =>
      if cp < 0xD800 || cp > 0xDFFF then Some(Unit(cp, 4))
      else if cp <= 0xDBFF then
        if |s| >= 6 && s[4] == BACKSLASH && s[5] == LOWER_U then
          match Hex4(s[6..])
          case None => None
          case Some(trail) =>
            if trail < 0xDC00 || trail > 0xDFFF then None
            else Some(Unit(Combine(cp, trail), 10))
        else None
      else None
  }

  /** The bytes one step of `process_string` writes, and how many it reads. */
  datatype Chunk = Chunk(out: Bytes, used: nat)

  function UnescapeOne(body: Bytes): (r: Option<Chunk>)
    requires body != []
    ensures r.Some? ==> 1 <= |r.value.out| <= r.value.used <= |body|
  {
    if body[0] == BACKSLASH then
      if |body| == 1 then None
      else
        var c := body[1];
        if c == QUOTE || c == BACKSLASH || c == SLASH then Some(Chunk([c], 2))
        else if c == LOWER_B then Some(Chunk([8], 2))
        else if c == LOWER_F then Some(Chunk([12], 2))
        else if c == LOWER_N then Some(Chunk([10], 2))
        else if c == LOWER_R then Some(Chunk([13], 2))
        else if c == LOWER_T then Some(Chunk([9], 2))
        else if c == LOWER_U then
          match Utf16(body[2..])
          case None => None
          case Some(u) => Some(Chunk(Encode(u.cp), 2 + u.used))
        else None
    else if body[0] < 0x20 then None
    else Some(Chunk([body[0]], 1))
  }

  /** `process_string` on the bytes between the quotes. */
  function Unescape(body: Bytes): (r: Option<Bytes>)
    ensures r.Some? ==> |r.value| <= |body|
  {
    if body == [] then Some([])
    else
      match UnescapeOne(body)
      case None => None
      case Some(chunk) =>
        match Unescape(body[chunk.used..])
        case None => None
        case Some(tail) => Some(chunk.out + tail)
  }

  datatype Read = Read(value: Bytes, rest: Bytes)

  /** `get_quoted_string`: the decoded text, cut at a NUL as every later use of the C string cuts it. */
  function GetQuoted(s: Bytes): (r: Option<Read>)
    ensures r.Some? ==> |r.value.rest| + 2 <= |s| && NulFree(r.value.value)
  {
    match SkipQuotes(s)
    case None => None
    case Some(rest) =>
      match Unescape(s[1..|s| - |rest| - 1])
      case None => None
      case Some(out) => Some(Read(CString(out), rest))
  }

  // --- Reading past the closing quote ---------------------------------------------

  /** After a `\u`: fewer than three bytes are left before the closing quote. */
  predicate HexOverreads(s: Bytes) {
    |s| < 3
  }

  /** After a `\u`: its digits, or those of the escape that follows a lead surrogate, reach past the quote. */
  predicate Utf16Overreads(s: Bytes) {
    || HexOverreads(s)
    || match Hex4(s)
       case None => false
       case Some(cp) =>
         && 0xD800 <= cp <= 0xDBFF && |s| >= 6 && s[4] == BACKSLASH && s[5] == LOWER_U
         && HexOverreads(s[6..])
  }

  predicate OneOverreads(body: Bytes) {
    |body| >= 2 && body[0] == BACKSLASH && body[1] == LOWER_U && Utf16Overreads(body[2..])
  }

  /** Decoding the bytes between two quotes reaches an escape that the closing quote cuts short. */
  predicate Overreads(body: Bytes) {
    && body != []
    && (OneOverreads(body)
        || (UnescapeOne(body).Some? && Overreads(body[UnescapeOne(body).value.used..])))
  }

  lemma OneOverreadFails(body: Bytes)
    requires body != [] && OneOverreads(body)
    ensures UnescapeOne(body) == None
  {
  }

  /** Only a string that is refused is examined past its closing quote. */
  lemma {:induction false} OverreadFails(body: Bytes)
    ensures Overreads(body) ==> Unescape(body) == None
    ensures body != [] && UnescapeOne(body).Some? ==> !OneOverreads(body)
  {
    if body != [] {
      if OneOverreads(body) {
        OneOverreadFails(body);
      } else if Overreads(body) {
        OverreadFails(body[UnescapeOne(body).value.used..]);
      }
    }
  }

  /** The text `"\u"abc`: the escape takes the closing quote and two letters for digits. */
  lemma OverreadExample()
    ensures
      var body := [BACKSLASH, LOWER_U];
      && SkipQuotes([QUOTE] + body + [QUOTE, 0x61, 0x62, 0x63]) == Some([0x61, 0x62, 0x63])
      && Overreads(body)
  {
    var body := [BACKSLASH, LOWER_U];
    var s := body + [QUOTE, 0x61, 0x62, 0x63];
    assert ([QUOTE] + body + [QUOTE, 0x61, 0x62, 0x63])[1..] == s;
    assert s[1..][0] == LOWER_U && s[2..] == [QUOTE, 0x61, 0x62, 0x63];
    assert SkipBody(s) == SkipBody(s[2..]);
    assert body[2..] == [];
    assert OneOverreads(body);
  }

  /** The escapes of one letter, section 7 of RFC 8259. */
  lemma LetterEscapes(rest: Bytes)
    ensures
      var letters, codes := ['"', '\\', '/', 'b', 'f', 'n', 'r', 't'], [0x22, 0x5C, 0x2F, 8, 12, 10, 13, 9];
      forall k :: 0 <= k < 8 ==>
        UnescapeOne([BACKSLASH, letters[k] as byte] + rest) == Some(Chunk([codes[k] as byte], 2))
  {
  }

  /** Raw control characters, unknown escapes and surrogates out of place are refused. */
  lemma RefusedPieces(c: byte, d: int, rest: Bytes)
    requires 0 <= d < 16
    ensures c < 0x20 ==> UnescapeOne([c] + rest) == None
    ensures c as char !in "\"\\/bfnrtu" ==> UnescapeOne([BACKSLASH, c] + rest) == None
    ensures d >= 12 ==> Utf16([HexDigit(13), HexDigit(d), HexDigit(0), HexDigit(0)] + rest) == None
    ensures 8 <= d < 12 && !([BACKSLASH, LOWER_U] <= rest) ==>
      Utf16([HexDigit(13), HexDigit(d), HexDigit(0), HexDigit(0)] + rest) == None
  {
    hide HexDigit, HexValue, Encode;
    var s := [HexDigit(13), HexDigit(d), HexDigit(0), HexDigit(0)] + rest;
    Hex4ReadsDigits(13, d, 0, 0, rest);
    assert s[4..] == rest;
    if 8 <= d < 12 && |s| >= 6 && s[4] == BACKSLASH && s[5] == LOWER_U {
      assert rest[0] == BACKSLASH && rest[1] == LOWER_U;
    }
    EscapeLetters(c, rest);
  }

  lemma EscapeLetters(c: byte, rest: Bytes)
    ensures c as char !in "\"\\/bfnrtu" ==> UnescapeOne([BACKSLASH, c] + rest) == None
  {
    var letters := "\"\\/bfnrtu";
    assert letters[0] as int == 0x22 && letters[1] as int == 0x5C && letters[2] as int == 0x2F;
    assert letters[3] as int == 0x62 && letters[4] as int == 0x66 && letters[5] as int == 0x6E;
    assert letters[6] as int == 0x72 && letters[7] as int == 0x74 && letters[8] as int == 0x75;
  }

  /** The escaped pair of section 7 of RFC 8259 for the G clef, U+1D11E. */
  lemma ClefExample()
    ensures Utf16([0x44, 0x38, 0x33, 0x34, BACKSLASH, LOWER_U, 0x44, 0x44, 0x31, 0x45]) == Some(Unit(0x1D11E, 10))
  {
    var s: Bytes := [0x44, 0x38, 0x33, 0x34, BACKSLASH, LOWER_U, 0x44, 0x44, 0x31, 0x45];
    assert s[6..] == [0x44, 0x44, 0x31, 0x45];
  }

  // --- Stepping over bytes that are no quote ---------------------------------------

  lemma {:induction false} SkipOverPlain(d: Bytes, t: Bytes)
    requires forall i :: 0 <= i < |d| ==> d[i] != 0 && d[i] != QUOTE && d[i] != BACKSLASH
    ensures SkipBody(d + t) == SkipBody(t)
  {
    if d == [] {
      assert d + t == t;
    } else {
      assert (d + t)[1..] == d[1..] + t;
      SkipOverPlain(d[1..], t);
    }
  }

  lemma SkipOverPair(c: byte, t: Bytes)
    requires c != 0
    ensures SkipBody([BACKSLASH, c] + t) == SkipBody(t)
  {
    var s := [BACKSLASH, c] + t;
    assert s[1..][0] == c && s[2..] == t;
  }

  // --- What decoding depends on, and what it keeps --------------------------------

  /** The decoded text depends only on the bytes up to the closing quote. */
  lemma GetQuotedIgnoresRest(s: Bytes, rest1: Bytes, rest2: Bytes)
    requires SkipQuotes(s + rest1) == Some(rest1)
    ensures SkipQuotes(s + rest2) == Some(rest2)
    ensures GetQuoted(s + rest1).Some? <==> GetQuoted(s + rest2).Some?
    ensures GetQuoted(s + rest1).Some? ==>
      GetQuoted(s + rest1).value.value == GetQuoted(s + rest2).value.value
  {
    assert (s + rest1)[1..] == s[1..] + rest1 && (s + rest2)[1..] == s[1..] + rest2;
    SkipBodyIgnoresRest(s[1..], rest1, rest2);
    assert (s + rest1)[1..|s| - 1] == (s + rest2)[1..|s| - 1];
  }

  lemma {:induction false} SkipBodyIgnoresRest(s: Bytes, rest1: Bytes, rest2: Bytes)
    requires SkipBody(s + rest1) == Some(rest1)
    ensures SkipBody(s + rest2) == Some(rest2)
  {
    var t1, t2 := s + rest1, s + rest2;
    assert t1[0] == s[0] && t2[0] == s[0];
    if s[0] == QUOTE {
      assert |s| == 1;
      assert t2[1..] == rest2;
    } else if s[0] == BACKSLASH {
      assert |s| > 1 by {
        assert SkipBody(t1[2..]) == Some(rest1);
      }
      assert t1[1..] == s[1..] + rest1 && t2[1..] == s[1..] + rest2;
      assert t1[2..] == s[2..] + rest1 && t2[2..] == s[2..] + rest2;
      SkipBodyIgnoresRest(s[2..], rest1, rest2);
    } else {
      assert t1[1..] == s[1..] + rest1 && t2[1..] == s[1..] + rest2;
      SkipBodyIgnoresRest(s[1..], rest1, rest2);
    }
  }

  /** Surrogate pairs and the code points beyond the basic plane correspond one to one. */
  lemma SurrogatePairs(cp: int)
    requires 0x10000 <= cp <= 0x10FFFF
    ensures exists lead, trail ::
      && 0xD800 <= lead <= 0xDBFF && 0xDC00 <= trail <= 0xDFFF && Combine(lead, trail) == cp
      && (forall l, t :: 0xD800 <= l <= 0xDBFF && 0xDC00 <= t <= 0xDFFF && Combine(l, t) == cp ==>
            l == lead && t == trail)
  {
    var lead, trail := 0xD800 + (cp - 0x10000) / 1024, 0xDC00 + (cp - 0x10000) % 1024;
    assert Combine(lead, trail) == cp;
  }

  /** A step that starts below 0x80 ends below 0x80. */
  lemma ChunkEndsInAscii(body: Bytes)
    requires body != [] && UnescapeOne(body).Some? && body[0] < 0x80
    ensures body[UnescapeOne(body).value.used - 1] < 0x80
  {
    hide Encode;
    if body[0] == BACKSLASH && body[1] == LOWER_U {
      HexIsAscii(body[2..]);
      if Utf16(body[2..]).value.used == 10 {
        HexIsAscii(body[2..][6..]);
      }
    }
  }

  lemma HexIsAscii(s: Bytes)
    requires Hex4(s).Some?
    ensures s[3] < 0x80
  {
  }

  lemma ChunkIsUtf8(body: Bytes)
    requires body != [] && UnescapeOne(body).Some? && body[0] < 0x80
    ensures IsValid(UnescapeOne(body).value.out)
  {
    hide Encode, Utf16, IsValid;
    if body[0] == BACKSLASH && body[1] == LOWER_U {
      EncodingIsUtf8(Utf16(body[2..]).value.cp);
    } else {
      AsciiIsValid(UnescapeOne(body).value.out);
    }
  }

  lemma EncodingIsUtf8(cp: int)
    requires Scalar(cp)
    ensures IsValid(Encode(cp))
  {
    hide Encode;
    VerifyAcceptsEncoding(cp, []);
    assert Encode(cp) + [] == Encode(cp);
  }

  lemma DropAscii(s: Bytes)
    requires IsValid(s) && s != [] && s[0] < 0x80
    ensures IsValid(s[1..])
  {
  }

  /** One step of decoding takes whole characters: both sides stay well-formed UTF-8. */
  lemma UnescapeOneKeepsUtf8(body: Bytes)
    requires IsValid(body) && body != [] && UnescapeOne(body).Some? && body[0] < 0x80
    ensures IsValid(body[UnescapeOne(body).value.used..])
    ensures IsValid(UnescapeOne(body).value.out)
  {
    hide UnescapeOne, IsValid;
    var k := UnescapeOne(body).value.used;
    ChunkEndsInAscii(body);
    ChunkIsUtf8(body);
    ValidSplit(body, k - 1);
    DropAscii(body[k - 1..]);
    assert body[k - 1..][1..] == body[k..];
  }

  /** Bytes of 0x80 and above are copied as they are. */
  lemma {:induction false} UnescapeCopies(body: Bytes, k: nat)
    requires k <= |body| && forall i :: 0 <= i < k ==> body[i] >= 0x80
    ensures Unescape(body).Some? <==> Unescape(body[k..]).Some?
    ensures Unescape(body).Some? ==> Unescape(body).value == body[..k] + Unescape(body[k..]).value
  {
    hide Unescape;
    if k == 0 {
      assert body[0..] == body && body[..0] == [];
    } else {
      var t := body[1..];
      UnescapeCopies(t, k - 1);
      assert t[k - 1..] == body[k..];
      UnescapeCopiesOne(body);
      assert body[..k] == [body[0]] + t[..k - 1];
    }
  }

  lemma UnescapeCopiesOne(body: Bytes)
    requires body != [] && body[0] >= 0x80
    ensures Unescape(body) == match Unescape(body[1..]) case None => None case Some(tail) => Some([body[0]] + tail)
  {
    hide Utf16;
    assert UnescapeOne(body) == Some(Chunk([body[0]], 1));
  }

  lemma EncodingBytes(cp: int)
    requires Scalar(cp) && cp >= 0x80
    ensures forall i :: 0 <= i < |Encode(cp)| ==> Encode(cp)[i] >= 0x80
  {
  }

  /** Decoding the escapes of well-formed UTF-8 gives well-formed UTF-8. */
  lemma {:induction false} UnescapeKeepsUtf8(body: Bytes)
    requires IsValid(body) && Unescape(body).Some?
    ensures IsValid(Unescape(body).value)
    decreases |body|
  {
    if body == [] {
    } else if body[0] < 0x80 {
      var chunk := UnescapeOne(body).value;
      UnescapeOneKeepsUtf8(body);
      UnescapeKeepsUtf8(body[chunk.used..]);
      ValidConcat(chunk.out, Unescape(body[chunk.used..]).value);
    } else {
      var k := VerifySequence(body).value;
      var cp := Assemble(body).value;
      VerifyFindsEncoding(body);
      EncodingBytes(cp);
      UnescapeCopies(body, k);
      UnescapeKeepsUtf8(body[k..]);
      VerifyAcceptsEncoding(cp, []);
      assert Encode(cp) + [] == Encode(cp);
      ValidConcat(body[..k], Unescape(body[k..]).value);
    }
  }

  lemma {:induction false} CStringKeepsUtf8(s: Bytes)
    requires IsValid(s)
    ensures IsValid(CString(s))
  {
    var r := CString(s);
    if |r| < |s| {
      ValidSplit(s, |r|);
      assert s[..|r|] == r;
    } else {
      assert r == s;
    }
  }

  /** A string token of well-formed text yields well-formed text, and leaves well-formed text. */
  lemma GetQuotedKeepsUtf8(s: Bytes)
    requires IsValid(s) && GetQuoted(s).Some?
    ensures WellFormedUtf8(GetQuoted(s).value.value)
    ensures IsValid(GetQuoted(s).value.rest)
  {
    hide Unescape, SkipBody, CString, IsValid;
    var rest := GetQuoted(s).value.rest;
    var q := |s| - |rest| - 1;
    SkipBodyLeavesSuffix(s[1..]);
    assert s[1..][|s[1..]| - |rest| - 1] == s[q];
    ValidSplit(s, q);
    DropAscii(s[q..]);
    assert s[q..][1..] == rest;
    DropAscii(s[..q]);
    assert s[..q][1..] == s[1..q];
    UnescapeKeepsUtf8(s[1..q]);
    CStringKeepsUtf8(Unescape(s[1..q]).value);
    IsValidIffWellFormed(GetQuoted(s).value.value);
  }
}
