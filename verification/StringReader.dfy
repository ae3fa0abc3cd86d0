/**
 The string reader of lib/parson.c as it runs: a cursor over the C string and a buffer
 written in place. Every read and write is checked against the buffers' bounds.
 */
module StringReader {
  import opened Bytes
  import opened Utf8
  import opened Strings

  /** `skip_quotes`. On failure the cursor is abandoned. */
  method SkipQuotesAt(text: Bytes, p: nat) returns (ok: bool, q: nat)
    requires IsCText(text) && p < |text|
    ensures ok <==> SkipQuotes(From(text, p)).Some?
    ensures ok ==> p + 2 <= q < |text| && SkipQuotes(From(text, p)) == Some(From(text, q))
  {
    hide NulFree, From;
    q := p;
    if text[q] != QUOTE {
      return false, q;
    }
    FromDrop(text, q, 1);
    q := q + 1;
    while text[q] != QUOTE
      invariant p < q < |text|
      invariant SkipBody(From(text, q)) == SkipQuotes(From(text, p))
      decreases |text| - q
    {
      if text[q] == 0 {
        return false, q;
      } else if text[q] == BACKSLASH {
        FromDrop(text, q, 1);
        q := q + 1;
        if text[q] == 0 {
          return false, q;
        }
        FromDrop(text, q - 1, 2);
      } else {
        FromDrop(text, q, 1);
      }
      q := q + 1;
    }
    FromDrop(text, q, 1);
    q := q + 1;
    return true, q;
  }

  /**
   `parse_utf16_hex`: `far` is the last position it examines. That lies beyond the closing
   quote at `e` exactly when fewer than three bytes are left before the quote, and never
   beyond the NUL.
   */
  method ParseUtf16Hex(text: Bytes, p: nat, ghost e: nat) returns (ok: bool, result: int, ghost far: nat)
    requires IsCText(text) && p <= e < |text| && text[e] == QUOTE
    ensures ok <==> Hex4(text[p..e]).Some?
    ensures ok ==> Hex4(text[p..e]) == Some(result) && p + 4 <= e
    ensures far < |text| && (far > e <==> e - p < 3)
  {
    ghost var s := text[p..e];
    assert forall i :: p <= i < e ==> s[i - p] == text[i];
    assert e < |text| - 1;
    assert forall i :: 0 <= i < |text| - 1 ==> text[i] == text[..|text| - 1][i];
    if text[p] == 0 || text[p + 1] == 0 || text[p + 2] == 0 || text[p + 3] == 0 {
      far := if text[p + 1] == 0 then p + 1 else if text[p + 2] == 0 then p + 2 else p + 3;
      return false, 0, far;
    }
    far := p + 3;
    var x1 := HexValue(text[p]);
    var x2 := HexValue(text[p + 1]);
    var x3 := HexValue(text[p + 2]);
    var x4 := HexValue(text[p + 3]);
    if x1 == -1 || x2 == -1 || x3 == -1 || x4 == -1 {
      return false, 0, far;
    }
    return true, x1 * 4096 + x2 * 256 + x3 * 16 + x4, far;
  }

  /** The stores of `parse_utf16`: the bytes of one code point; `q'` is the last position written. */
  method PutCodePoint(output: array<byte>, q: nat, cp: int) returns (q': nat)
    requires Scalar(cp) && q + |Encode(cp)| <= output.Length
    modifies output
    ensures q' + 1 == q + |Encode(cp)|
    ensures output[..] == old(output[..q]) + Encode(cp) + old(output[q + |Encode(cp)|..])
  {
    q' := q;
    if cp < 0x80 {
      output[q'] := cp as byte;
    } else if cp < 0x800 {
      output[q'] := (0xC0 + cp / 64) as byte;
      output[q' + 1] := (0x80 + cp % 64) as byte;
      q' := q' + 1;
    } else if cp < 0x10000 {
      output[q'] := (0xE0 + cp / 4096) as byte;
      output[q' + 1] := (0x80 + cp / 64 % 64) as byte;
      output[q' + 2] := (0x80 + cp % 64) as byte;
      q' := q' + 2;
    } else {
      output[q'] := (0xF0 + cp / 262144) as byte;
      output[q' + 1] := (0x80 + cp / 4096 % 64) as byte;
      output[q' + 2] := (0x80 + cp / 64 % 64) as byte;
      output[q' + 3] := (0x80 + cp % 64) as byte;
      q' := q' + 3;
    }
  }

  /** The cases of `Utf16` after its first four digits. */
  lemma Utf16Cases(s: Bytes, cp: int)
    requires Hex4(s) == Some(cp)
    ensures cp < 0xD800 || cp > 0xDFFF ==> Utf16(s) == Some(Unit(cp, 4))
    ensures 0xDC00 <= cp <= 0xDFFF ==> Utf16(s) == None
    ensures 0xD800 <= cp <= 0xDBFF ==>
      && (|s| == 4 || s[4] != BACKSLASH || |s| == 5 || s[5] != LOWER_U ==> Utf16(s) == None)
      && (|s| >= 6 && s[4] == BACKSLASH && s[5] == LOWER_U ==>
            match Hex4(s[6..])
            case None => Utf16(s) == None
            case Some(trail) =>
              Utf16(s) == if 0xDC00 <= trail <= 0xDFFF then Some(Unit(Combine(cp, trail), 10)) else None)
  {
    hide Hex4, Encode;
  }

  /** The reads of `parse_utf16`, from the `u` to the last hexadecimal digit. */
  method ReadUtf16(text: Bytes, p: nat, ghost e: nat) returns (ok: bool, cp: int, p': nat, ghost far: nat)
    requires IsCText(text) && p < e < |text| && text[e] == QUOTE
    ensures ok <==> Utf16(text[p + 1..e]).Some?
    ensures ok ==> p < p' < e && Utf16(text[p + 1..e]) == Some(Unit(cp, p' - p))
    ensures far < |text| && (far > e <==> Utf16Overreads(text[p + 1..e]))
  {
    hide Utf16, Hex4, IsCText, Encode;
    ghost var s := text[p + 1..e];
    p' := p + 1;
    var parsed;
    parsed, cp, far := ParseUtf16Hex(text, p', e);
    if !parsed {
      Utf16NeedsHex(s);
      return false, cp, p', far;
    }
    Utf16Cases(s, cp);
    if cp < 0xD800 || cp > 0xDFFF {
      return true, cp, p' + 3, far;
    } else if cp <= 0xDBFF {
      var lead := cp;
      p' := p' + 4;
      far := p';
      assert |s| == e - p - 1 && (|s| > 4 ==> s[4] == text[p']) && (|s| > 5 ==> s[5] == text[p' + 1]);
      if text[p'] != BACKSLASH {
        return false, cp, p' + 1, far;
      }
      p' := p' + 1;
      far := p';
      if text[p'] != LOWER_U {
        return false, cp, p' + 1, far;
      }
      p' := p' + 1;
      assert text[p'..e] == s[6..];
      var trail;
      parsed, trail, far := ParseUtf16Hex(text, p', e);
      if !parsed || trail < 0xDC00 || trail > 0xDFFF {
        return false, cp, p', far;
      }
      cp := (lead - 0xD800) % 1024 * 1024 + (trail - 0xDC00) % 1024 + 0x10000;
      assert cp == Combine(lead, trail);
      return true, cp, p' + 3, far;
    } else {
      return false, cp, p', far;
    }
  }

  lemma Utf16NeedsHex(s: Bytes)
    requires Hex4(s) == None
    ensures Utf16(s) == None
  {
  }

  /**
   `parse_utf16`, called with the cursor on the `u`. It leaves the cursor on the last byte it
   read and the output position on the last byte it wrote.
   */
  method ParseUtf16(text: Bytes, p: nat, output: array<byte>, q: nat, ghost e: nat)
    returns (ok: bool, p': nat, q': nat, ghost far: nat)
    requires IsCText(text) && p < e < |text| && text[e] == QUOTE
    requires q + (e - p) <= output.Length
    modifies output
    ensures far < |text| && (far > e <==> Utf16Overreads(text[p + 1..e]))
    ensures ok <==> Utf16(text[p + 1..e]).Some?
    ensures !ok ==> output[..] == old(output[..])
    ensures ok ==>
      var u := Utf16(text[p + 1..e]).value;
      && p' == p + u.used && p' < e
      && q' + 1 == q + |Encode(u.cp)|
      && output[..] == old(output[..q]) + Encode(u.cp) + old(output[q' + 1..])
  {
    q' := q;
    var cp;
    ok, cp, p', far := ReadUtf16(text, p, e);
    if ok {
      q' := PutCodePoint(output, q, cp);
    }
  }

  lemma SkipOverHex(s: Bytes)
    requires NulFree(s) && Hex4(s).Some?
    ensures SkipBody(s) == SkipBody(s[4..])
  {
    assert s == s[..4] + s[4..];
    SkipOverPlain(s[..4], s[4..]);
  }

  /** A decoding step never swallows the closing quote. */
  lemma SkipOverChunk(s: Bytes, body: Bytes)
    requires NulFree(s) && body <= s && body != [] && UnescapeOne(body).Some?
    requires body[0] != QUOTE
    ensures SkipBody(s) == SkipBody(s[UnescapeOne(body).value.used..])
  {
    if body[0] == BACKSLASH {
      assert SkipBody(s) == SkipBody(s[2..]);
      if body[1] == LOWER_U {
        var h, b := s[2..], body[2..];
        assert Hex4(h) == Hex4(b);
        SkipOverHex(h);
        assert h[4..] == s[6..];
        if Utf16(b).value.used == 10 {
          var t := s[6..];
          assert t[..2] == b[4..6];
          assert t[2..] == s[8..] && s[8..][4..] == s[12..];
          assert Hex4(s[8..]) == Hex4(b[6..]);
          SkipOverHex(s[8..]);
        }
      }
    }
  }

  /** Decoding `body` comes down to having written `done` and decoding `b` next. */
  ghost predicate Progress(body: Bytes, done: Bytes, b: Bytes) {
    && (Unescape(body).Some? <==> Unescape(b).Some?)
    && (Unescape(body).Some? ==> Unescape(body).value == done + Unescape(b).value)
  }

  lemma ProgressStep(body: Bytes, done: Bytes, b: Bytes)
    requires Progress(body, done, b) && b != [] && UnescapeOne(b).Some?
    ensures Progress(body, done + UnescapeOne(b).value.out, b[UnescapeOne(b).value.used..])
  {
    var chunk := UnescapeOne(b).value;
    var tail := Unescape(b[chunk.used..]);
    if tail.Some? {
      assert done + (chunk.out + tail.value) == done + chunk.out + tail.value;
    }
  }

  /** One turn of the loop of `process_string`: `p'` and `q'` are the advanced positions. */
  method ProcessOne(text: Bytes, p: nat, buffer: array<byte>, q: nat, ghost e: nat)
    returns (ok: bool, p': nat, q': nat, ghost far: nat)
    requires IsCText(text) && p < e < |text| && text[e] == QUOTE
    requires text[p] == BACKSLASH ==> p + 1 < e
    requires q + (e - p) < buffer.Length
    modifies buffer
    ensures far < |text| && (far > e <==> OneOverreads(text[p..e]))
    ensures ok <==> UnescapeOne(text[p..e]).Some?
    ensures ok ==>
      var chunk := UnescapeOne(text[p..e]).value;
      && p' == p + chunk.used && q' == q + |chunk.out|
      && buffer[..q'] == old(buffer[..q]) + chunk.out
  {
    ghost var b := text[p..e];
    p', q', far := p, q, p;
    assert b[0] == text[p];
    if text[p'] == BACKSLASH {
      p' := p' + 1;
      far := p';
      assert b[1] == text[p'];
      var c := text[p'];
      if c == QUOTE || c == BACKSLASH || c == SLASH {
        buffer[q'] := c;
      } else if c == LOWER_B {
        buffer[q'] := 8;
      } else if c == LOWER_F {
        buffer[q'] := 12;
      } else if c == LOWER_N {
        buffer[q'] := 10;
      } else if c == LOWER_R {
        buffer[q'] := 13;
      } else if c == LOWER_T {
        buffer[q'] := 9;
      } else if c == LOWER_U {
        assert b[2..] == text[p' + 1..e];
        ok, p', q', far := ParseUtf16(text, p', buffer, q', e);
        if !ok {
          return false, p', q', far;
        }
        assert buffer[..q' + 1] == buffer[..][..q' + 1];
      } else {
        return false, p', q', far;
      }
    } else if text[p'] < 0x20 {
      return false, p', q', far;
    } else {
      buffer[q'] := text[p'];
    }
    return true, p' + 1, q' + 1, far;
  }

  lemma NothingOverreads()
    ensures !Overreads([])
  {
  }

  lemma ProgressDone(body: Bytes, done: Bytes)
    requires Progress(body, done, [])
    ensures Unescape(body) == Some(done)
  {
    assert done + [] == done;
  }

  lemma ProgressFails(body: Bytes, done: Bytes, b: Bytes)
    requires Progress(body, done, b) && b != [] && UnescapeOne(b).None?
    ensures Unescape(body) == None
  {
  }

  /** Decoding has reached `p`, with `done` written, and the closing quote at `e` is still ahead. */
  ghost predicate Reached(text: Bytes, input: nat, e: nat, p: nat, done: Bytes)
    requires IsCText(text)
  {
    && input <= p <= e < |text| - 1
    && SkipBody(From(text, p)) == Some(From(text, e + 1))
    && Progress(text[input..e], done, text[p..e])
    && (Overreads(text[input..e]) <==> Overreads(text[p..e]))
  }

  lemma ReachedStep(text: Bytes, input: nat, e: nat, p: nat, done: Bytes)
    requires IsCText(text) && Reached(text, input, e, p, done) && p < e
    ensures text[p] != QUOTE && text[p] != 0
    ensures text[p] == BACKSLASH ==> p + 1 < e
    ensures UnescapeOne(text[p..e]).None? ==> Unescape(text[input..e]) == None
    ensures UnescapeOne(text[p..e]).None? ==> (Overreads(text[input..e]) <==> OneOverreads(text[p..e]))
    ensures UnescapeOne(text[p..e]).Some? ==> !OneOverreads(text[p..e])
    ensures UnescapeOne(text[p..e]).Some? ==>
      var chunk := UnescapeOne(text[p..e]).value;
      Reached(text, input, e, p + chunk.used, done + chunk.out)
  {
    hide Unescape, SkipBody, UnescapeOne, Progress, OneOverreads;
    var body, b := text[input..e], text[p..e];
    OverreadFails(b);
    ClosingQuoteAhead(text, p, e);
    if UnescapeOne(b).None? {
      ProgressFails(body, done, b);
    } else {
      var used := UnescapeOne(b).value.used;
      ProgressStep(body, done, b);
      assert b[used..] == text[p + used..e];
      FromIsNulFree(text, p);
      FromTake(text, p, 0, e - p);
      assert b <= From(text, p);
      SkipOverChunk(From(text, p), b);
      FromDrop(text, p, used);
    }
  }

  /** The copy at the end of `process_string` that cuts the buffer to its final size. */
  method Resize(buffer: array<byte>, size: nat) returns (resized: array<byte>)
    requires size <= buffer.Length
    ensures fresh(resized) && resized[..] == buffer[..size]
  {
    resized := new byte[size];
    forall i | 0 <= i < size {
      resized[i] := buffer[i];
    }
  }

  /**
   `process_string` on the `len` bytes before a closing quote; null stands for its failure.
   `far` is the last position it examines: not beyond the terminating NUL, and beyond the
   closing quote exactly when the text overreads.
   */
  method ProcessString(text: Bytes, input: nat, len: nat) returns (output: array?<byte>, ghost far: nat)
    requires IsCText(text) && input + len + 1 < |text|
    requires text[input + len] == QUOTE
    requires SkipBody(From(text, input)) == Some(From(text, input + len + 1))
    ensures output == null <==> Unescape(text[input..input + len]).None?
    ensures output != null ==>
      fresh(output) && output[..] == Unescape(text[input..input + len]).value + [0]
    ensures far < |text| && (far > input + len <==> Overreads(text[input..input + len]))
  {
    hide Unescape, SkipBody, UnescapeOne, IsCText, From, OneOverreads, Overreads;
    ghost var e := input + len;
    var buffer := new byte[len + 1];
    var p, q: nat := input, 0;
    far := p;
    assert Reached(text, input, e, input, []);
    while text[p] != 0 && p - input < len
      invariant input <= p <= e && q <= p - input
      invariant Reached(text, input, e, p, buffer[..q])
      invariant far <= e
      decreases e - p
    {
      ReachedStep(text, input, e, p, buffer[..q]);
      var ok, p', q';
      ghost var examined: nat;
      ok, p', q', examined := ProcessOne(text, p, buffer, q, e);
      far := if examined > far then examined else far;
      if !ok {
        return null, far;
      }
      p, q := p', q';
    }
    assert p == e;
    far := e;
    assert text[p..e] == [];
    NothingOverreads();
    ProgressDone(text[input..e], buffer[..q]);
    buffer[q] := 0;
    var finalSize := q + 1;
    output := Resize(buffer, finalSize);
  }

  /** Before the closing quote there is no unescaped quote, and an escape is complete. */
  lemma ClosingQuoteAhead(text: Bytes, p: nat, e: nat)
    requires IsCText(text) && p < e < |text| - 1
    requires SkipBody(From(text, p)) == Some(From(text, e + 1))
    ensures text[p] != QUOTE
    ensures text[p] == BACKSLASH ==> p + 1 < e
  {
    FromDrop(text, p, 1);
    if text[p] == BACKSLASH {
      FromDrop(text, p, 2);
    }
  }

  /** `get_quoted_string`: a fresh C string and the cursor after the closing quote, or null. */
  method GetQuotedString(text: Bytes, p: nat) returns (r: array?<byte>, p': nat)
    requires IsCText(text) && p < |text|
    ensures r == null <==> GetQuoted(From(text, p)).None?
    ensures r != null ==>
      && fresh(r) && p' < |text|
      && GetQuoted(From(text, p)) == Some(Read(CString(r[..]), From(text, p')))
  {
    hide Unescape, UnescapeOne, CString, Overreads, SkipBody, NulFree;
    ghost var s := From(text, p);
    var ok;
    ok, p' := SkipQuotesAt(text, p);
    if !ok {
      return null, p';
    }
    var len := p' - p - 2;
    FromDrop(text, p, 1);
    SkipBodyLeavesSuffix(s[1..]);
    assert From(text, p + 1)[len] == text[p + 1 + len];
    FromTake(text, p, 1, 1 + len);
    ghost var far;
    r, far := ProcessString(text, p + 1, len);
    if r != null {
      CutAtTerminator(Unescape(text[p + 1..p + 1 + len]).value);
    }
  }

  lemma CutAtTerminator(s: Bytes)
    ensures CString(s + [0]) == CString(s)
  {
    hide CString;
    var r := CString(s);
    if |r| < |s| {
      assert s + [0] == r + [0] + (s[|r| + 1..] + [0]);
      CStringStopsAtNul(r, s[|r| + 1..] + [0]);
    } else {
      assert s + [0] == s + [0] + [];
      CStringStopsAtNul(s, []);
    }
  }
}
