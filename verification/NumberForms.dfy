/**
 The forms of number tokens beyond the plain integers: what continues an integer, what the
 checks of lib/parson.c refuse, and exactly which numbers are not modelled.
 */
module NumberForms {
  import opened Bytes
  import opened Json
  import opened Numbers

  // --- What continues an integer --------------------------------------------------

  /** The byte at a place of a text, or NUL behind its end. */
  function Ahead(s: Bytes, i: nat): byte {
    if i < |s| then s[i] else 0
  }

  lemma ExponentIff(s: Bytes)
    ensures ExponentLength(s, 0x65) > 0 <==>
      && (Ahead(s, 0) == 0x65 || Ahead(s, 0) == 0x45)
      && (IsDigit(Ahead(s, 1)) || ((Ahead(s, 1) == PLUS || Ahead(s, 1) == MINUS) && IsDigit(Ahead(s, 2))))
  {
    hide Span;
    if s != [] {
      assert Peek(s[1..]) == Ahead(s, 1);
      SpanIff(s[1..]);
      if |s| >= 2 {
        assert Peek(s[2..]) == Ahead(s, 2);
        SpanIff(s[2..]);
      }
    }
  }

  lemma HexIff(s: Bytes)
    ensures HexLength(s) > 0 <==> IsHex(Ahead(s, 0)) || (Ahead(s, 0) == DOT && IsHex(Ahead(s, 1)))
  {
    assert s[0..] == s;
    if s != [] {
      assert Peek(s[1..]) == Ahead(s, 1);
    }
  }

  /** What continues a printed integer, by the next three bytes. */
  lemma ExtendsSpelled(n: int, rest: Bytes)
    ensures
      var a, b, c := Ahead(rest, 0), Ahead(rest, 1), Ahead(rest, 2);
      Extends(n, rest) <==>
        || IsDigit(a)
        || a == DOT
        || ((a == 0x65 || a == 0x45) && (IsDigit(b) || ((b == PLUS || b == MINUS) && IsDigit(c))))
        || (n == 0 && (a == 0x78 || a == 0x58) && (IsHex(b) || (b == DOT && IsHex(c))))
  {
    hide ExponentLength, HexLength;
    ExponentIff(rest);
    if rest != [] {
      HexIff(rest[1..]);
      assert Ahead(rest[1..], 0) == Ahead(rest, 1) && Ahead(rest[1..], 1) == Ahead(rest, 2);
    }
  }

  // --- What is refused ------------------------------------------------------------

  predicate IsSign(sign: Bytes) {
    sign == [] || sign == [MINUS]
  }

  /** A superfluous leading zero is refused, whatever follows. */
  lemma LeadingZeroIsRefused(sign: Bytes, d: byte, rest: Bytes)
    requires IsSign(sign) && IsDigit(d)
    ensures ReadNumber(sign + ([ZERO, d] + rest)) == Bad
  {
    hide HexLength, ExponentLength;
    hide Scan, IsDecimal;
    var u, s := [ZERO, d] + rest, sign + ([ZERO, d] + rest);
    ZeroAndDigit(d, rest);
    assert sign == [] ==> s == u;
    assert sign == [MINUS] ==> s[1..] == u;
    var t := s[..Strtod(s).len];
    assert t[|sign|] == ZERO && t[|sign| + 1] == d;
    SuperfluousZero(sign, t);
  }

  lemma ZeroAndDigit(d: byte, rest: Bytes)
    requires IsDigit(d)
    ensures Scan([ZERO, d] + rest).len >= 2
  {
    hide HexLength, ExponentLength, FractionLength;
    var u := [ZERO, d] + rest;
    assert u[1..][0] == d && Span(u) >= 2;
  }

  lemma SuperfluousZero(sign: Bytes, t: Bytes)
    requires IsSign(sign) && |t| >= |sign| + 2 && t[..|sign|] == sign
    requires t[|sign|] == ZERO && IsDigit(t[|sign| + 1])
    ensures !IsDecimal(t)
  {
    assert sign == [MINUS] ==> t[0] == t[..1][0];
  }

  /** A hexadecimal constant is refused. */
  lemma HexIsRefused(sign: Bytes, x: byte, rest: Bytes)
    requires IsSign(sign) && IsX(x) && HexLength(rest) > 0
    ensures ReadNumber(sign + ([ZERO, x] + rest)) == Bad
  {
    hide HexLength, ExponentLength;
    var u, s := [ZERO, x] + rest, sign + ([ZERO, x] + rest);
    assert u[1] == x && u[2..] == rest;
    assert Scan(u).len >= 2;
    assert sign == [] ==> s == u;
    if sign == [MINUS] {
      assert s[1..] == u && s[2] == x;
    }
    var t := s[..Strtod(s).len];
    assert t[|sign| + 1] == x;
  }

  /** Minus infinity and not-a-number are refused, in any case of their letters. */
  lemma NotFiniteIsRefused(s: Bytes)
    requires s != [] && s[0] == MINUS
    requires StartsWord(s[1..], 0x69, 0x6E, 0x66) || StartsWord(s[1..], 0x6E, 0x61, 0x6E)
    ensures ReadNumber(s) == Bad
  {
    hide HexLength, ExponentLength;
  }

  // --- What is not modelled -------------------------------------------------------

  lemma OtherToken(u: Bytes)
    requires Scan(u).len > 0 && Scan(u).value.Other?
    ensures var t := u[..Scan(u).len];
      || (exists i :: 0 <= i < |t| && (IsMark(t[i]) || IsX(t[i])))
      || (AllDigits(t) && DigitsValue(t) > MAX_EXACT)
  {
    hide HexLength, StartsWord;
    var t := u[..Scan(u).len];
    if |u| >= 2 && u[0] == ZERO && IsX(u[1]) && HexLength(u[2..]) > 0 {
      assert IsX(t[1]);
    } else {
      var d := Span(u);
      var f := FractionLength(u[d..]);
      if f > 0 {
        assert t[d] == u[d..][0] == DOT;
      } else if ExponentLength(u[d..], 0x65) > 0 {
        assert u[d + f..] == u[d..];
        assert t[d] == u[d..][0];
      } else {
        assert u[d + f..] == u[d..];
      }
    }
  }

  /**
   The numbers whose value is not modelled: those with a fraction or an exponent, those beyond
   2^53 in magnitude, and negative zero.
   */
  lemma UnmodelledIsBeyond(s: Bytes)
    requires s != [] && (s[0] == MINUS || IsDigit(s[0])) && ReadNumber(s).Unmodelled?
    ensures
      var sign := if s[0] == MINUS then 1 else 0;
      var len := Strtod(s).len;
      && sign < len
      && var t := s[sign..len];
         || (exists i :: 0 <= i < |t| && IsMark(t[i]))
         || (AllDigits(t) && (DigitsValue(t) > MAX_EXACT || (s[0] == MINUS && DigitsValue(t) == 0)))
  {
    hide Scan, DigitsValue;
    var sign := if s[0] == MINUS then 1 else 0;
    var u, len := s[sign..], Strtod(s).len;
    assert sign == 0 ==> u == s;
    ScanOfDigitIsNotEmpty(s);
    var t := s[sign..len];
    assert t == u[..Scan(u).len];
    if Scan(u).value.Integer? {
      IntegerToken(u);
    } else {
      OtherToken(u);
      assert forall i :: 0 <= i < |t| ==> t[i] == s[..len][i + sign];
    }
  }

  lemma ScanOfDigitIsNotEmpty(s: Bytes)
    ensures s != [] && IsDigit(s[0]) ==> Scan(s).len > 0
  {
    hide HexLength, ExponentLength;
  }

  lemma FractionHasNoX(s: Bytes)
    ensures forall i :: 0 <= i < FractionLength(s) ==> !IsX(s[i])
  {
    if FractionLength(s) > 0 {
      var d := Span(s[1..]);
      assert forall i :: 1 <= i < 1 + d ==> s[i] == s[1..][..d][i - 1];
    }
  }

  lemma ExponentHasNoX(s: Bytes)
    ensures forall i :: 0 <= i < ExponentLength(s, 0x65) ==> !IsX(s[i])
  {
    if ExponentLength(s, 0x65) > 0 {
      var j := if Peek(s[1..]) == PLUS || Peek(s[1..]) == MINUS then 2 else 1;
      var d := Span(s[j..]);
      assert j == 2 ==> s[1] == s[1..][0];
      assert forall i :: j <= i < j + d ==> s[i] == s[j..][..d][i - j];
    }
  }

  lemma {:induction false} MarkedHasNoX(n: nat, rest: Bytes)
    requires Peek(rest) == DOT || ExponentLength(rest, 0x65) > 0
    ensures var u := Digits(n) + rest;
      forall i :: 0 <= i < Scan(u).len ==> !IsX(u[i])
  {
    hide HexLength, Digits, ExponentLength, FractionLength;
    var ds := Digits(n);
    var u := ds + rest;
    ScanMarked(n, rest);
    DigitsShape(n);
    MarkIsNoDigit(rest);
    SpanOverDigits(ds, rest);
    assert u[|ds|..] == rest;
    var f := FractionLength(rest);
    FractionHasNoX(rest);
    ExponentHasNoX(rest[f..]);
    assert u[|ds| + f..] == rest[f..];
    assert u[0] == ds[0];
    assert |u| >= 2 && u[0] == ZERO ==> !IsX(u[1]) by {
      assert |ds| == 1 ==> u[1] == rest[0];
    }
    forall i | 0 <= i < Scan(u).len
      ensures !IsX(u[i])
    {
      if |ds| <= i < |ds| + f {
        assert u[i] == rest[i - |ds|];
      } else if i >= |ds| + f {
        assert u[i] == rest[f..][i - |ds| - f];
      }
    }
  }

  /**
   Conversely, a fraction or an exponent behind an integer makes a number that is not
   modelled; but a zero with an exponent and no fraction counts as a superfluous zero.
   */
  lemma MarkedIsUnmodelled(n: int, rest: Bytes)
    requires Peek(rest) == DOT || ExponentLength(rest, 0x65) > 0
    ensures ReadNumber(DecimalText(n) + rest) == if n == 0 && Peek(rest) != DOT then Bad else Unmodelled
  {
    hide Strtod, IsDecimal, Digits, ExponentLength;
    var m: nat := if n < 0 then -n else n;
    var s := DecimalText(n) + rest;
    assert s == (if n < 0 then [MINUS] else []) + (Digits(m) + rest);
    MarkedToken(m, n < 0, rest);
  }

  lemma MarkedToken(m: nat, negative: bool, rest: Bytes)
    requires Peek(rest) == DOT || ExponentLength(rest, 0x65) > 0
    ensures
      var s := (if negative then [MINUS] else []) + (Digits(m) + rest);
      && Strtod(s).value == Other
      && (IsDecimal(s[..Strtod(s).len]) <==> m != 0 || Peek(rest) == DOT)
  {
    hide Scan, ExponentLength, Digits, Strtod, IsDecimal, IsX;
    var sign := if negative then [MINUS] else [];
    var u := Digits(m) + rest;
    var s := sign + u;
    assert if negative then s[0] == MINUS && s[1..] == u else s == u;
    ScanMarked(m, rest);
    MarkIsNoDigit(rest);
    StrtodOther(s, u);
    var v := u[..Scan(u).len];
    assert s[..Strtod(s).len] == sign + v;
    MarkedHasNoX(m, rest);
    assert v[|Digits(m)|] == u[|Digits(m)|] == rest[0];
    MarkedIsDecimal(m, negative, v);
  }

  lemma StrtodOther(s: Bytes, u: Bytes)
    requires s != [] && (s[0] == MINUS || IsDigit(s[0]))
    requires u == (if s[0] == MINUS then s[1..] else s) && Scan(u).len > 0 && Scan(u).value.Other?
    ensures Strtod(s) == Token((if s[0] == MINUS then 1 else 0) + Scan(u).len, Other)
  {
    hide Scan;
  }

  lemma MarkedIsDecimal(m: nat, negative: bool, v: Bytes)
    requires |v| > |Digits(m)| && v[..|Digits(m)|] == Digits(m) && IsMark(v[|Digits(m)|])
    requires forall i :: 0 <= i < |v| ==> !IsX(v[i])
    ensures IsDecimal((if negative then [MINUS] else []) + v) <==> m != 0 || v[|Digits(m)|] == DOT
  {
    hide Digits;
    var ds := Digits(m);
    DigitsShape(m);
    var t := (if negative then [MINUS] else []) + v;
    assert v[0] == v[..|ds|][0] == ds[0];
    assert |ds| > 1 ==> v[1] == v[..|ds|][1];
    assert if negative then t[1] == v[0] && (|t| > 2 ==> t[2] == v[1]) else t == v;
  }

  /** Negative zero, and integers beyond 2^53, are not modelled either. */
  lemma BeyondIsUnmodelled(n: nat, negative: bool, rest: Bytes)
    requires n > MAX_EXACT || (n == 0 && negative)
    requires !Extends(n, rest)
    ensures ReadNumber((if negative then [MINUS] else []) + (Digits(n) + rest)) == Unmodelled
  {
    hide Scan, Extends, IsDecimal, Digits;
    var u, sign := Digits(n) + rest, if negative then [MINUS] else [];
    var s := sign + u;
    DigitsShape(n);
    ScanEnds(n, rest);
    assert u[..|Digits(n)|] == Digits(n) && u[0] == Digits(n)[0];
    assert if negative then s[1..] == u else s == u;
    var t := s[..Strtod(s).len];
    assert t == sign + Digits(n);
    SignedIsDecimal(n, negative);
  }

  lemma SignedIsDecimal(n: nat, negative: bool)
    ensures IsDecimal((if negative then [MINUS] else []) + Digits(n))
  {
    hide Digits;
    DigitsShape(n);
    var t := (if negative then [MINUS] else []) + Digits(n);
    assert forall i :: 0 <= i < |Digits(n)| ==> IsDigit(Digits(n)[i]);
    assert !negative ==> t == Digits(n);
    assert negative ==> t[1] == Digits(n)[0] && (|t| > 2 ==> t[2] == Digits(n)[1]);
  }
}
