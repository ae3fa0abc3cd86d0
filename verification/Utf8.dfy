/**
 UTF-8: the checker of lib/parson.c against the definition in section 3 of RFC 3629.
 Masks and shifts are written as division and remainder; `MasksAreArithmetic` and the
 lemmas after it show, on bit vectors, that these are the values of the C expressions.
 */
module Utf8 {
  import opened Bytes

  // --- The definition -------------------------------------------------------------

  /** A Unicode scalar value: a code point that is not half of a surrogate pair. */
  predicate Scalar(cp: int) {
    0 <= cp <= 0x10FFFF && !(0xD800 <= cp <= 0xDFFF)
  }

  /** The shortest form of a scalar value, the table in section 3 of RFC 3629. */
  function Encode(cp: int): (r: Bytes)
    requires Scalar(cp)
    ensures 1 <= |r| <= 4
  {
    if cp < 0x80 then [cp as byte]
    else if cp < 0x800 then [(0xC0 + cp / 64) as byte, (0x80 + cp % 64) as byte]
    else if cp < 0x10000 then
      [(0xE0 + cp / 4096) as byte, (0x80 + cp / 64 % 64) as byte, (0x80 + cp % 64) as byte]
    else
      [(0xF0 + cp / 262144) as byte, (0x80 + cp / 4096 % 64) as byte,
       (0x80 + cp / 64 % 64) as byte, (0x80 + cp % 64) as byte]
  }

  predicate AllScalar(cps: seq<int>) {
    forall i :: 0 <= i < |cps| ==> Scalar(cps[i])
  }

  function EncodeAll(cps: seq<int>): Bytes
    requires AllScalar(cps)
  {
    if cps == [] then [] else Encode(cps[0]) + EncodeAll(cps[1..])
  }

  /** `s` encodes some sequence of scalar values. */
  ghost predicate WellFormedUtf8(s: Bytes) {
    exists cps :: AllScalar(cps) && EncodeAll(cps) == s
  }

  // --- The checker ----------------------------------------------------------------

  /** The IS_CONT macro. */
  predicate IsCont(c: byte) {
    0x80 <= c < 0xC0
  }

  /** `num_bytes_in_utf8_sequence`. */
  function SequenceLength(c: byte): (n: nat)
    ensures n <= 4
  {
    if c == 0xC0 || c == 0xC1 || c > 0xF4 || IsCont(c) then 0
    else if c < 0x80 then 1
    else if c < 0xE0 then 2
    else if c < 0xF0 then 3
    else 4
  }

  function At(s: Bytes, i: nat): byte {
    if i < |s| then s[i] else 0
  }

  /** The code point `verify_utf8_sequence` assembles, when the bytes after the first are continuations. */
  function Assemble(s: Bytes): Option<int> {
    var len := SequenceLength(At(s, 0));
    var a := At(s, 0) as int;
    var b := At(s, 1) as int;
    var c := At(s, 2) as int;
    var d := At(s, 3) as int;
    if len == 1 then Some(a)
    else if len == 2 && IsCont(At(s, 1)) then Some(a % 32 * 64 + b % 64)
    else if len == 3 && IsCont(At(s, 1)) && IsCont(At(s, 2)) then
      Some((a % 16 * 64 + b % 64) * 64 + c % 64)
    else if len == 4 && IsCont(At(s, 1)) && IsCont(At(s, 2)) && IsCont(At(s, 3)) then
      Some(((a % 8 * 64 + b % 64) * 64 + c % 64) * 64 + d % 64)
    else None
  }

  /** `verify_utf8_sequence`: the length of the sequence at the front of `s`, if it is acceptable. */
  function VerifySequence(s: Bytes): (r: Option<nat>)
    ensures r.Some? ==> 1 <= r.value <= 4
    ensures r.Some? && s != [] ==> r.value <= |s|
  {
    var len := SequenceLength(At(s, 0));
    match Assemble(s)
    case None => None
    case Some(cp) =>
      if (cp < 0x80 && len > 1) || (cp < 0x800 && len > 2) || (cp < 0x10000 && len > 3) then None
      else if cp > 0x10FFFF then None
      else if 0xD800 <= cp <= 0xDFFF then None
      else Some(len)
  }

  /** `is_valid_utf8` on a string of `|s|` bytes. */
  predicate IsValid(s: Bytes) {
    s == [] || (VerifySequence(s).Some? && IsValid(s[VerifySequence(s).value..]))
  }

  // --- The checker meets the definition -------------------------------------------

  /** Six-bit groups below a leading group: splitting and assembling are inverse. */
  lemma Groups(h: int, x: int, y: int, z: int)
    requires 0 <= h < 32 && 0 <= x < 64 && 0 <= y < 64 && 0 <= z < 64
    ensures (h * 64 + z) / 64 == h && (h * 64 + z) % 64 == z
    ensures ((h * 64 + y) * 64 + z) / 4096 == h && ((h * 64 + y) * 64 + z) / 64 == h * 64 + y
    ensures ((h * 64 + y) * 64 + z) % 64 == z && (h * 64 + y) % 64 == y
    ensures (((h * 64 + x) * 64 + y) * 64 + z) / 262144 == h
    ensures (((h * 64 + x) * 64 + y) * 64 + z) / 4096 == h * 64 + x && (h * 64 + x) % 64 == x
    ensures (((h * 64 + x) * 64 + y) * 64 + z) / 64 == (h * 64 + x) * 64 + y && ((h * 64 + x) * 64 + y) % 64 == y
    ensures (((h * 64 + x) * 64 + y) * 64 + z) % 64 == z
  {
  }

  lemma Ungroup(cp: int)
    requires 0 <= cp < 0x110000
    ensures cp == cp / 64 * 64 + cp % 64
    ensures cp == (cp / 4096 * 64 + cp / 64 % 64) * 64 + cp % 64
    ensures cp == ((cp / 262144 * 64 + cp / 4096 % 64) * 64 + cp / 64 % 64) * 64 + cp % 64
  {
  }

  lemma VerifyAccepts3(cp: int, s: Bytes)
    requires 0x800 <= cp < 0x10000 && Scalar(cp) && Encode(cp) <= s
    ensures Assemble(s) == Some(cp)
  {
    Ungroup(cp);
    var h := cp / 4096;
    assert SequenceLength(s[0]) == 3 && s[0] as int % 16 == h;
  }

  lemma AssembleFour(s: Bytes, h: int, x: int, y: int, z: int)
    requires 0 <= h <= 4 && 0 <= x < 64 && 0 <= y < 64 && 0 <= z < 64 && |s| >= 4
    requires s[0] as int == 0xF0 + h && s[1] as int == 0x80 + x && s[2] as int == 0x80 + y && s[3] as int == 0x80 + z
    ensures Assemble(s) == Some(((h * 64 + x) * 64 + y) * 64 + z)
  {
    assert SequenceLength(s[0]) == 4;
    assert s[0] as int % 8 == h && s[1] as int % 64 == x && s[2] as int % 64 == y && s[3] as int % 64 == z;
  }

  lemma VerifyAccepts4(cp: int, s: Bytes)
    requires 0x10000 <= cp && Scalar(cp) && Encode(cp) <= s
    ensures Assemble(s) == Some(cp)
  {
    hide Assemble;
    Ungroup(cp);
    var e := Encode(cp);
    assert s[0] == e[0] && s[1] == e[1] && s[2] == e[2] && s[3] == e[3];
    AssembleFour(s, cp / 262144, cp / 4096 % 64, cp / 64 % 64, cp % 64);
  }

  lemma VerifyAcceptsEncoding(cp: int, rest: Bytes)
    requires Scalar(cp)
    ensures Assemble(Encode(cp) + rest) == Some(cp)
    ensures VerifySequence(Encode(cp) + rest) == Some(|Encode(cp)|)
  {
    var s := Encode(cp) + rest;
    assert s[0] == Encode(cp)[0];
    if cp < 0x80 {
    } else if cp < 0x800 {
      assert s[1] == Encode(cp)[1];
    } else if cp < 0x10000 {
      VerifyAccepts3(cp, s);
    } else {
      VerifyAccepts4(cp, s);
    }
  }

  lemma VerifyFinds3(s: Bytes, cp: int)
    requires |s| >= 3 && SequenceLength(s[0]) == 3 && Assemble(s) == Some(cp) && 0x800 <= cp
    ensures cp < 0x10000 && (Scalar(cp) ==> s[..3] == Encode(cp))
  {
    var h, y, z := s[0] as int % 16, s[1] as int % 64, s[2] as int % 64;
    Groups(h, 0, y, z);
    assert s[0] as int == 0xE0 + h && s[1] as int == 0x80 + y && s[2] as int == 0x80 + z;
    assert cp == (h * 64 + y) * 64 + z;
    assert cp / 4096 == h && cp / 64 % 64 == y && cp % 64 == z;
  }

  lemma VerifyFinds4(s: Bytes, cp: int)
    requires |s| >= 4 && SequenceLength(s[0]) == 4 && Assemble(s) == Some(cp) && 0x10000 <= cp
    ensures Scalar(cp) ==> s[..4] == Encode(cp)
  {
    var h, x, y, z := s[0] as int % 8, s[1] as int % 64, s[2] as int % 64, s[3] as int % 64;
    Groups(h, x, y, z);
    assert s[0] as int == 0xF0 + h && s[1] as int == 0x80 + x && s[2] as int == 0x80 + y && s[3] as int == 0x80 + z;
    assert cp == ((h * 64 + x) * 64 + y) * 64 + z;
    assert cp / 262144 == h && cp / 4096 % 64 == x && cp / 64 % 64 == y && cp % 64 == z;
  }

  lemma VerifyFindsEncoding(s: Bytes)
    requires s != [] && VerifySequence(s).Some?
    ensures Assemble(s).Some? && Scalar(Assemble(s).value)
    ensures s[..VerifySequence(s).value] == Encode(Assemble(s).value)
  {
    var len, cp := VerifySequence(s).value, Assemble(s).value;
    if len == 2 {
      Groups(s[0] as int % 32, 0, 0, s[1] as int % 64);
    } else if len == 3 {
      VerifyFinds3(s, cp);
    } else if len == 4 {
      VerifyFinds4(s, cp);
    }
  }

  lemma {:induction false} EncodingIsValid(cps: seq<int>)
    requires AllScalar(cps)
    ensures IsValid(EncodeAll(cps))
  {
    if cps != [] {
      var rest := EncodeAll(cps[1..]);
      VerifyAcceptsEncoding(cps[0], rest);
      assert (Encode(cps[0]) + rest)[|Encode(cps[0])|..] == rest;
      EncodingIsValid(cps[1..]);
    }
  }

  lemma {:induction false} ValidIsEncoding(s: Bytes) returns (cps: seq<int>)
    requires IsValid(s)
    ensures AllScalar(cps) && EncodeAll(cps) == s
  {
    if s == [] {
      cps := [];
    } else {
      var k := VerifySequence(s).value;
      VerifyFindsEncoding(s);
      var tail := ValidIsEncoding(s[k..]);
      cps := [Assemble(s).value] + tail;
      assert cps[1..] == tail;
      assert s == s[..k] + s[k..];
    }
  }

  /** The checker accepts exactly the concatenations of shortest-form encodings of scalar values. */
  lemma IsValidIffWellFormed(s: Bytes)
    ensures IsValid(s) <==> WellFormedUtf8(s)
  {
    if IsValid(s) {
      var cps := ValidIsEncoding(s);
    }
    forall cps | AllScalar(cps) && EncodeAll(cps) == s
      ensures IsValid(s)
    {
      EncodingIsValid(cps);
    }
  }

  /** Decoding is unambiguous: no text encodes two sequences. */
  lemma {:induction false} EncodeAllInjective(xs: seq<int>, ys: seq<int>)
    requires AllScalar(xs) && AllScalar(ys) && EncodeAll(xs) == EncodeAll(ys)
    ensures xs == ys
  {
    if xs != [] && ys != [] {
      VerifyAcceptsEncoding(xs[0], EncodeAll(xs[1..]));
      VerifyAcceptsEncoding(ys[0], EncodeAll(ys[1..]));
      var k := |Encode(xs[0])|;
      assert EncodeAll(xs[1..]) == EncodeAll(xs)[k..];
      assert EncodeAll(ys[1..]) == EncodeAll(ys)[k..];
      EncodeAllInjective(xs[1..], ys[1..]);
    }
  }

  lemma {:induction false} ValidConcat(s: Bytes, t: Bytes)
    requires IsValid(s) && IsValid(t)
    ensures IsValid(s + t)
  {
    hide VerifySequence, Assemble, Encode, Scalar;
    if s == [] {
      assert s + t == t;
    } else {
      var k := VerifySequence(s).value;
      VerifyFindsEncoding(s);
      VerifyAcceptsEncoding(Assemble(s).value, s[k..] + t);
      assert s + t == Encode(Assemble(s).value) + (s[k..] + t);
      assert (s + t)[k..] == s[k..] + t;
      ValidConcat(s[k..], t);
    }
  }

  /** Cutting well-formed text at a byte below 0x80 leaves well-formed text on both sides. */
  lemma {:induction false} ValidSplit(s: Bytes, i: nat)
    requires IsValid(s) && i < |s| && s[i] < 0x80
    ensures IsValid(s[..i]) && IsValid(s[i..])
  {
    hide VerifySequence, Assemble, Encode, Scalar;
    if i > 0 {
      var k := VerifySequence(s).value;
      VerifyFindsEncoding(s);
      SequenceStaysTogether(s, i);
      ValidSplit(s[k..], i - k);
      assert s[k..][..i - k] == s[..i][k..];
      assert s[k..][i - k..] == s[i..];
      VerifyAcceptsEncoding(Assemble(s).value, s[..i][k..]);
      assert s[..i] == s[..k] + s[..i][k..];
    } else {
      assert s[..0] == [] && s[0..] == s;
    }
  }

  /** Only the first byte of a sequence can be below 0x80. */
  lemma SequenceStaysTogether(s: Bytes, i: nat)
    requires VerifySequence(s).Some? && 0 < i < |s| && s[i] < 0x80
    ensures VerifySequence(s).value <= i
  {
    var k := VerifySequence(s).value;
    assert forall j :: 0 < j < k ==> IsCont(At(s, j));
  }

  lemma {:induction false} AsciiIsValid(s: Bytes)
    requires forall i :: 0 <= i < |s| ==> s[i] < 0x80
    ensures IsValid(s)
  {
    if s != [] {
      AsciiIsValid(s[1..]);
    }
  }

  // --- The C expressions ----------------------------------------------------------

  lemma MasksAreArithmetic(c: byte)
    ensures IsCont(c) <==> (c as bv8) & 0xC0 == 0x80
    ensures c < 0x80 <==> (c as bv8) & 0x80 == 0
    ensures 0xC0 <= c < 0xE0 <==> (c as bv8) & 0xE0 == 0xC0
    ensures 0xE0 <= c < 0xF0 <==> (c as bv8) & 0xF0 == 0xE0
    ensures 0xF0 <= c < 0xF8 <==> (c as bv8) & 0xF8 == 0xF0
  {
  }

  lemma AssembleBits(a: bv32, b: bv32)
    requires a < 0x10000 && b < 0x100
    ensures (a << 6) | (b & 0x3F) == a * 64 + b % 64
    ensures a & 0x1F == a % 32 && a & 0x0F == a % 16 && a & 0x07 == a % 8
  {
  }

  /** The examples of section 7 of RFC 3629: A, not identical to, Alpha, and a stump of tree. */
  lemma EncodingExamples()
    ensures Encode(0x41) == [0x41] && Encode(0x2262) == [0xE2, 0x89, 0xA2] && Encode(0x391) == [0xCE, 0x91]
    ensures Encode(0x233B4) == [0xF0, 0xA3, 0x8E, 0xB4]
  {
  }

  lemma EncodeBits(cp: bv32)
    requires cp < 0x110000
    ensures (cp & 0x3F) | 0x80 == 0x80 + cp % 64
    ensures ((cp >> 6) & 0x3F) | 0x80 == 0x80 + cp / 64 % 64
    ensures ((cp >> 12) & 0x3F) | 0x80 == 0x80 + cp / 4096 % 64
    ensures cp < 0x800 ==> ((cp >> 6) & 0x1F) | 0xC0 == 0xC0 + cp / 64
    ensures cp < 0x10000 ==> ((cp >> 12) & 0x0F) | 0xE0 == 0xE0 + cp / 4096
    ensures ((cp >> 18) & 0x07) | 0xF0 == 0xF0 + cp / 262144
  {
  }

  // --- The checker as it runs -----------------------------------------------------

  /** `verify_utf8_sequence` at a cursor; every byte it reads lies inside the C string's buffer. */
  method VerifyUtf8Sequence(text: Bytes, p: nat) returns (ok: bool, len: nat)
    requires IsCText(text) && p < |text| - 1
    ensures ok <==> VerifySequence(From(text, p)).Some?
    ensures ok ==> VerifySequence(From(text, p)) == Some(len) && p + len < |text|
  {
    ghost var s := From(text, p);
    var cp := 0;
    len := SequenceLength(text[p]);
    assert At(s, 0) == text[p];
    if len == 1 {
      cp := text[p] as int;
    } else if len == 2 && IsCont(text[p + 1]) {
      cp := text[p] as int % 32;
      cp := cp * 64 + text[p + 1] as int % 64;
    } else if len == 3 && IsCont(text[p + 1]) && IsCont(text[p + 2]) {
      cp := text[p] as int % 16;
      cp := cp * 64 + text[p + 1] as int % 64;
      cp := cp * 64 + text[p + 2] as int % 64;
    } else if len == 4 && IsCont(text[p + 1]) && IsCont(text[p + 2]) && IsCont(text[p + 3]) {
      cp := text[p] as int % 8;
      cp := cp * 64 + text[p + 1] as int % 64;
      cp := cp * 64 + text[p + 2] as int % 64;
      cp := cp * 64 + text[p + 3] as int % 64;
    } else {
      return false, len;
    }
    assert Assemble(s) == Some(cp);
    if (cp < 0x80 && len > 1) || (cp < 0x800 && len > 2) || (cp < 0x10000 && len > 3) {
      return false, len;
    }
    if cp > 0x10FFFF {
      return false, len;
    }
    if 0xD800 <= cp <= 0xDFFF {
      return false, len;
    }
    return true, len;
  }

  /** `is_valid_utf8` on a whole C string. */
  method IsValidUtf8(text: Bytes) returns (ok: bool)
    requires IsCText(text)
    ensures ok <==> WellFormedUtf8(text[..|text| - 1])
  {
    hide WellFormedUtf8, VerifySequence, IsCText;
    var p := 0;
    StartOfText(text);
    IsValidIffWellFormed(text[..|text| - 1]);
    while p < |text| - 1
      invariant 0 <= p <= |text| - 1
      invariant IsValid(text[..|text| - 1]) <==> IsValid(From(text, p))
    {
      var good, len := VerifyUtf8Sequence(text, p);
      if !good {
        return false;
      }
      FromDrop(text, p, len);
      p := p + len;
    }
    return true;
  }

  lemma StartOfText(text: Bytes)
    requires IsCText(text)
    ensures |text| > 0 && From(text, 0) == text[..|text| - 1]
  {
  }
}
