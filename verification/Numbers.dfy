/**
 Number tokens. Printing is "%1.17g" on the integers a double holds exactly; reading is the
 C library's `strtod` followed by the checks of `parse_number_value`. The extent of every
 token is exact. Values other than those integers (fractions, exponents, larger integers,
 negative zero) depend on floating-point conversion, and reading them is `Unmodelled`.
 */
module Numbers {
  import opened Bytes
  import opened Json

  // --- Printing -------------------------------------------------------------------

  function Digits(n: nat): (r: Bytes)
    ensures |r| >= 1 && IsDigit(r[0])
  {
    if n < 10 then [(0x30 + n) as byte] else Digits(n / 10) + [(0x30 + n % 10) as byte]
  }

  /** An integer as "%1.17g" and "%ld" print it. */
  function DecimalText(n: int): (r: Bytes)
    ensures |r| >= 1 && (r[0] == MINUS || IsDigit(r[0]))
  {
    if n < 0 then [MINUS] + Digits(-n) else Digits(n)
  }

  // --- Reading --------------------------------------------------------------------

  predicate AllDigits(s: Bytes) {
    forall i :: 0 <= i < |s| ==> IsDigit(s[i])
  }

  function DigitsValue(s: Bytes): nat
    requires AllDigits(s)
  {
    if s == [] then 0 else DigitsValue(s[..|s| - 1]) * 10 + (s[|s| - 1] as int - 0x30)
  }

  /** The number of leading digits. */
  function Span(s: Bytes): (n: nat)
    ensures n <= |s| && AllDigits(s[..n])
    ensures n < |s| ==> !IsDigit(s[n])
  {
    if s != [] && IsDigit(s[0]) then
      var n := 1 + Span(s[1..]);
      assert forall i :: 1 <= i < n ==> s[i] == s[1..][..n - 1][i - 1];
      n
    else 0
  }

  predicate IsHex(c: byte) {
    IsDigit(c) || 0x41 <= c <= 0x46 || 0x61 <= c <= 0x66
  }

  function HexSpan(s: Bytes): (n: nat)
    ensures n <= |s|
  {
    if s != [] && IsHex(s[0]) then 1 + HexSpan(s[1..]) else 0
  }

  /** The length of an exponent part introduced by one of two letters, or 0. */
  function ExponentLength(s: Bytes, lower: byte): (n: nat)
    requires lower >= 0x20
    ensures n <= |s|
  {
    if s != [] && (s[0] == lower || s[0] == lower - 0x20) then
      var j := if Peek(s[1..]) == PLUS || Peek(s[1..]) == MINUS then 2 else 1;
      if Span(s[j..]) > 0 then j + Span(s[j..]) else 0
    else 0
  }

  /** A fraction part: the point and the digits after it. */
  function FractionLength(s: Bytes): (n: nat)
    ensures n <= |s|
  {
    if Peek(s) == DOT then 1 + Span(s[1..]) else 0
  }

  predicate IsX(c: byte) {
    c == 0x78 || c == 0x58
  }

  /** The length of a hexadecimal constant after its `0x`, or 0 when no digit follows. */
  function HexLength(s: Bytes): (n: nat)
    ensures n <= |s|
  {
    var h := HexSpan(s);
    var f := if Peek(s[h..]) == DOT then 1 + HexSpan(s[h + 1..]) else 0;
    if h == 0 && f < 2 then 0 else h + f + ExponentLength(s[h + f..], 0x70)
  }

  function Lower(c: byte): byte {
    if 0x41 <= c <= 0x5A then c + 0x20 else c
  }

  predicate StartsWord(s: Bytes, a: byte, b: byte, c: byte) {
    |s| >= 3 && Lower(s[0]) == a && Lower(s[1]) == b && Lower(s[2]) == c
  }

  datatype Value = Integer(n: int) | NotFinite | Other

  datatype Token = Token(len: nat, value: Value)

  /** The longest number at the front of a text, without its sign; length 0 when there is none. */
  function Scan(u: Bytes): (t: Token)
    ensures t.len <= |u|
  {
    if StartsWord(u, 0x69, 0x6E, 0x66) || StartsWord(u, 0x6E, 0x61, 0x6E) then Token(3, NotFinite)
    else if |u| >= 2 && u[0] == ZERO && IsX(u[1]) && HexLength(u[2..]) > 0 then
      Token(2 + HexLength(u[2..]), Other)
    else
      var d := Span(u);
      var f := FractionLength(u[d..]);
      if d == 0 && f < 2 then Token(0, Other)
      else
        var x := ExponentLength(u[d + f..], 0x65);
        var n := DigitsValue(u[..d]);
        Token(d + f + x, if f + x == 0 && n <= MAX_EXACT then Integer(n) else Other)
  }

  /** `strtod` where `parse_value` calls it: on a minus sign or a digit (C99 section 7.20.1.3). */
  function Strtod(s: Bytes): (t: Token)
    requires s != [] && (s[0] == MINUS || IsDigit(s[0]))
    ensures t.len <= |s|
  {
    if s[0] != MINUS then Scan(s)
    else
      var t := Scan(s[1..]);
      if t.len == 0 then Token(0, Integer(0)) // no conversion: zero, and the cursor stays
      else
        Token(1 + t.len,
              match t.value
              case Integer(n) => if n == 0 then Other else Integer(-n)
              case NotFinite => NotFinite
              case Other => Other)
  }

  /** `is_decimal`: no superfluous leading zero and no hexadecimal marker. */
  predicate IsDecimal(t: Bytes) {
    && !(|t| > 1 && t[0] == ZERO && t[1] != DOT)
    && !(|t| > 2 && t[0] == MINUS && t[1] == ZERO && t[2] != DOT)
    && forall i :: 0 <= i < |t| ==> !IsX(t[i])
  }

  datatype NumberRead = Good(n: int, rest: Bytes) | Bad | Unmodelled

  /** `parse_number_value`. */
  function ReadNumber(s: Bytes): (r: NumberRead)
    requires s != [] && (s[0] == MINUS || IsDigit(s[0]))
    ensures r.Good? ==> |r.rest| <= |s|
  {
    var t := Strtod(s);
    if !IsDecimal(s[..t.len]) then Bad
    else
      match t.value
      case Integer(n) => Good(n, s[t.len..])
      case NotFinite => Bad // `json_value_init_number` refuses infinities and NaN
      case Other => Unmodelled
  }

  /** The loop of `is_decimal`. */
  method CheckDecimal(token: Bytes) returns (ok: bool)
    ensures ok <==> IsDecimal(token)
  {
    var length := |token|;
    if length > 1 && token[0] == ZERO && token[1] != DOT {
      return false;
    }
    if length > 2 && token[0] == MINUS && token[1] == ZERO && token[2] != DOT {
      return false;
    }
    while length > 0
      invariant 0 <= length <= |token|
      invariant forall i :: length <= i < |token| ==> !IsX(token[i])
    {
      length := length - 1;
      if IsX(token[length]) {
        return false;
      }
    }
    return true;
  }

  // --- Reading undoes printing ----------------------------------------------------

  lemma {:induction false} DigitsShape(n: nat)
    ensures AllDigits(Digits(n)) && DigitsValue(Digits(n)) == n
    ensures Digits(n)[0] == ZERO <==> n == 0
    ensures n == 0 ==> Digits(n) == [ZERO]
  {
    if n >= 10 {
      DigitsShape(n / 10);
      var r := Digits(n);
      assert r[..|r| - 1] == Digits(n / 10);
    } else {
      assert Digits(n)[..0] == [];
    }
  }

  lemma {:induction false} SpanOverDigits(ds: Bytes, rest: Bytes)
    requires AllDigits(ds)
    ensures Span(ds + rest) == |ds| + Span(rest)
  {
    if ds == [] {
      assert ds + rest == rest;
    } else {
      assert (ds + rest)[1..] == ds[1..] + rest;
      SpanOverDigits(ds[1..], rest);
    }
  }

  /** What follows would be read as part of the number. */
  predicate Extends(n: int, rest: Bytes) {
    || IsDigit(Peek(rest))
    || Peek(rest) == DOT
    || ExponentLength(rest, 0x65) > 0
    || (n == 0 && IsX(Peek(rest)) && HexLength(rest[1..]) > 0)
  }

  /** Nothing continues the digits. */
  lemma {:induction false} ScanEnds(n: nat, rest: Bytes)
    requires !Extends(n, rest)
    ensures Scan(Digits(n) + rest) == Token(|Digits(n)|, if n <= MAX_EXACT then Integer(n) else Other)
  {
    hide HexLength, ExponentLength, Digits;
    var ds := Digits(n);
    var u := ds + rest;
    DigitsShape(n);
    SpanOverDigits(ds, rest);
    SpanIff(rest);
    assert u[0] == ds[0] && u[..|ds|] == ds && u[|ds|..] == rest && rest[0..] == rest;
    if n == 0 {
      assert |u| >= 2 ==> u[1] == rest[0] && u[2..] == rest[1..];
    }
  }

  lemma ScanHex(rest: Bytes)
    requires IsX(Peek(rest)) && HexLength(rest[1..]) > 0
    ensures Scan([ZERO] + rest).len > 1
  {
    hide HexLength;
    var u := [ZERO] + rest;
    assert u[1] == rest[0] && u[2..] == rest[1..];
  }

  /** What continues the digits makes the token longer. */
  lemma ScanGoesOn(n: nat, rest: Bytes)
    requires Extends(n, rest)
    ensures Scan(Digits(n) + rest).len > |Digits(n)|
  {
    hide Scan, Digits, ExponentLength, HexLength;
    DigitsShape(n);
    if Peek(rest) == DOT || ExponentLength(rest, 0x65) > 0 {
      ScanMarked(n, rest);
    } else if IsDigit(Peek(rest)) {
      ScanMoreDigits(n, rest);
    } else {
      ScanHex(rest);
    }
  }

  lemma ScanMoreDigits(n: nat, rest: Bytes)
    requires IsDigit(Peek(rest))
    ensures Scan(Digits(n) + rest).len > |Digits(n)|
  {
    hide HexLength, ExponentLength, FractionLength, Digits;
    var ds := Digits(n);
    var u := ds + rest;
    DigitsShape(n);
    SpanOverDigits(ds, rest);
    SpanIff(rest);
    assert u[0] == ds[0];
    assert |ds| == 1 ==> u[1] == rest[0];
  }

  lemma TextIsDecimal(n: int)
    ensures IsDecimal(DecimalText(n))
  {
    var ds := Digits(if n < 0 then -n else n);
    DigitsShape(if n < 0 then -n else n);
    assert forall i :: 0 <= i < |ds| ==> !IsX(ds[i]);
    assert n < 0 ==> DecimalText(n)[1] == ds[0];
  }

  lemma StrtodDigits(n: int, rest: Bytes)
    requires -MAX_EXACT <= n <= MAX_EXACT
    ensures
      var t := Strtod(DecimalText(n) + rest);
      if Extends(n, rest) then t.len > |DecimalText(n)| else t == Token(|DecimalText(n)|, Integer(n))
  {
    hide Scan, Span, ExponentLength, HexLength, Digits;
    var m: nat := if n < 0 then -n else n;
    var s := DecimalText(n) + rest;
    if Extends(m, rest) {
      ScanGoesOn(m, rest);
    } else {
      ScanEnds(m, rest);
    }
    assert Extends(n, rest) == Extends(m, rest);
    if n < 0 {
      assert s[1..] == Digits(m) + rest;
    }
  }

  /** A printed integer reads back as itself exactly when what follows does not extend the token. */
  lemma NumberRoundTrip(n: int, rest: Bytes)
    requires -MAX_EXACT <= n <= MAX_EXACT
    ensures ReadNumber(DecimalText(n) + rest) == Good(n, rest) <==> !Extends(n, rest)
  {
    hide Strtod, Extends, IsDecimal;
    var text := DecimalText(n);
    var s := text + rest;
    StrtodDigits(n, rest);
    if Extends(n, rest) {
      assert |s[Strtod(s).len..]| < |rest|;
    } else {
      TextIsDecimal(n);
      assert s[..|text|] == text && s[|text|..] == rest;
    }
  }

  lemma SpanIff(s: Bytes)
    ensures Span(s) > 0 <==> IsDigit(Peek(s))
  {
  }

  // --- Fractions and exponents ----------------------------------------------------

  /** A point or an exponent mark. */
  predicate IsMark(c: byte) {
    c == DOT || c == 0x65 || c == 0x45
  }

  lemma ScanMarked(n: nat, rest: Bytes)
    requires Peek(rest) == DOT || ExponentLength(rest, 0x65) > 0
    ensures Scan(Digits(n) + rest).value.Other? && Scan(Digits(n) + rest).len > |Digits(n)|
    ensures var t := (Digits(n) + rest)[..Scan(Digits(n) + rest).len];
      t[..|Digits(n)|] == Digits(n) && IsMark(t[|Digits(n)|])
  {
    hide HexLength, ExponentLength, Digits;
    var ds := Digits(n);
    var u := ds + rest;
    DigitsShape(n);
    MarkIsNoDigit(rest);
    SpanOverDigits(ds, rest);
    assert u[|ds|..] == rest && rest[0..] == rest;
    assert u[0] == ds[0];
    assert |u| >= 2 && u[0] == ZERO ==> !IsX(u[1]) by {
      assert |ds| == 1 ==> u[1] == rest[0];
    }
  }

  lemma MarkIsNoDigit(rest: Bytes)
    requires Peek(rest) == DOT || ExponentLength(rest, 0x65) > 0
    ensures rest != [] && IsMark(rest[0]) && Span(rest) == 0 && !IsX(rest[0])
  {
  }

  function Pow10(k: nat): nat {
    if k == 0 then 1 else 10 * Pow10(k - 1)
  }

  lemma {:induction false} DigitsLength(n: nat, k: nat)
    requires n < Pow10(k) && k > 0
    ensures |Digits(n)| <= k
  {
    if n >= 10 {
      DigitsLength(n / 10, k - 1);
    }
  }

  /** A printed number needs at most 17 bytes, far below the 64 of NUM_BUF_SIZE. */
  lemma DecimalLength(n: int)
    requires -MAX_EXACT <= n <= MAX_EXACT
    ensures |DecimalText(n)| <= 17
  {
    assert Pow10(4) == 10_000;
    assert Pow10(8) == 100_000_000;
    assert Pow10(12) == 1_000_000_000_000;
    assert Pow10(16) == 10_000_000_000_000_000;
    DigitsLength(if n < 0 then -n else n, 16);
  }

  lemma IntegerToken(u: Bytes)
    requires Scan(u).len > 0 && Scan(u).value.Integer?
    ensures AllDigits(u[..Scan(u).len]) && Scan(u).value.n == DigitsValue(u[..Scan(u).len]) <= MAX_EXACT
  {
    hide HexLength, ExponentLength, StartsWord;
  }

  lemma GoodIsInteger(s: Bytes)
    requires s != [] && (s[0] == MINUS || IsDigit(s[0])) && ReadNumber(s).Good?
    ensures Strtod(s).value == Integer(ReadNumber(s).n) && IsDecimal(s[..Strtod(s).len])
    ensures ReadNumber(s).rest == s[Strtod(s).len..]
    ensures s[0] != MINUS ==> Strtod(s) == Scan(s)
    ensures s[0] == MINUS && Scan(s[1..]).len > 0 ==>
      && Strtod(s).len == 1 + Scan(s[1..]).len && Scan(s[1..]).value == Integer(-ReadNumber(s).n)
      && ReadNumber(s).n != 0
  {
    hide Scan, IsDecimal;
  }

  /** A number token is a minus sign and digits. */
  lemma ReadNumberAscii(s: Bytes)
    requires s != [] && (s[0] == MINUS || IsDigit(s[0])) && ReadNumber(s).Good?
    ensures exists k: nat :: k <= |s| && s[k..] == ReadNumber(s).rest && forall i :: 0 <= i < k ==> s[i] < 0x80
  {
    hide Scan, ReadNumber, Strtod;
    GoodIsInteger(s);
    var len := Strtod(s).len;
    assert s[len..] == ReadNumber(s).rest;
    if s[0] == MINUS && Scan(s[1..]).len == 0 {
      LoneMinusLength(s);
    } else {
      var k := if s[0] == MINUS then 1 else 0;
      var u := s[k..];
      assert u == if s[0] == MINUS then s[1..] else s;
      if len > k {
        IntegerToken(u);
        assert forall i :: k <= i < len ==> s[i] == u[..Scan(u).len][i - k];
      }
    }
  }

  lemma LoneMinusLength(s: Bytes)
    requires s != [] && s[0] == MINUS && Scan(s[1..]).len == 0
    ensures Strtod(s).len == 0
  {
    hide Scan;
  }
}
