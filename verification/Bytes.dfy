/**
 Bytes, C strings and the character classes the repository's text formats rest on.
 A C string is a sequence of bytes whose only NUL is its last byte; the text it
 denotes is everything before that NUL.
 */
module Bytes {

  newtype byte = x: int | 0 <= x < 256

  type Bytes = seq<byte>

  datatype Option<+T> = None | Some(value: T)

  const QUOTE: byte := 0x22      // "
  const BACKSLASH: byte := 0x5C
  const SLASH: byte := 0x2F
  const STAR: byte := 0x2A
  const COMMA: byte := 0x2C
  const COLON: byte := 0x3A
  const LBRACKET: byte := 0x5B
  const RBRACKET: byte := 0x5D
  const LBRACE: byte := 0x7B
  const RBRACE: byte := 0x7D
  const MINUS: byte := 0x2D
  const PLUS: byte := 0x2B
  const DOT: byte := 0x2E
  const SPACE: byte := 0x20
  const NEWLINE: byte := 0x0A
  const ZERO: byte := 0x30
  const LOWER_B: byte := 0x62
  const LOWER_F: byte := 0x66
  const LOWER_N: byte := 0x6E
  const LOWER_R: byte := 0x72
  const LOWER_T: byte := 0x74
  const LOWER_U: byte := 0x75

  /** The bytes of an ASCII text. */
  function Ascii(s: string): (r: Bytes)
    requires forall i :: 0 <= i < |s| ==> 0 < s[i] as int < 128
    ensures |r| == |s| && forall i :: 0 <= i < |s| ==> r[i] as int == s[i] as int
  {
    seq(|s|, i requires 0 <= i < |s| => s[i] as byte)
  }

  /** What dereferencing a cursor yields: NUL at the end of the text. */
  function Peek(s: Bytes): byte {
    if s == [] then 0 else s[0]
  }

  predicate NulFree(s: Bytes) {
    forall i :: 0 <= i < |s| ==> s[i] != 0
  }

  /** The C string held by a buffer: the bytes before its first NUL. */
  function CString(s: Bytes): (r: Bytes)
    ensures r <= s && NulFree(r)
    ensures |r| < |s| ==> s[|r|] == 0
  {
    if Peek(s) == 0 then [] else [s[0]] + CString(s[1..])
  }

  lemma CStringOfNulFree(s: Bytes)
    requires NulFree(s)
    ensures CString(s) == s
  {
    var r := CString(s);
    assert |r| == |s|;
  }

  lemma {:induction false} CStringStopsAtNul(s: Bytes, t: Bytes)
    requires NulFree(s)
    ensures CString(s + [0] + t) == s
  {
    if s != [] {
      assert (s + [0] + t)[1..] == s[1..] + [0] + t;
      CStringStopsAtNul(s[1..], t);
    }
  }

  /** A NUL-terminated buffer with no earlier NUL. */
  ghost predicate IsCText(text: Bytes) {
    |text| > 0 && text[|text| - 1] == 0 && NulFree(text[..|text| - 1])
  }

  /** The text of a C string from a cursor position on, without the terminator. */
  ghost function From(text: Bytes, p: int): (r: Bytes)
    requires IsCText(text) && 0 <= p < |text|
    ensures |r| == |text| - 1 - p
    ensures text[p] == Peek(r)
    ensures text[p] == 0 <==> p == |text| - 1
  {
    assert p < |text| - 1 ==> text[p] == text[..|text| - 1][p];
    text[p..|text| - 1]
  }

  lemma FromDrop(text: Bytes, p: int, k: int)
    requires IsCText(text) && 0 <= p <= p + k < |text| && 0 <= k
    ensures From(text, p)[k..] == From(text, p + k)
  {
  }

  lemma FromTake(text: Bytes, p: int, i: int, j: int)
    requires IsCText(text) && 0 <= p && 0 <= i <= j && p + j < |text|
    ensures From(text, p)[i..j] == text[p + i..p + j]
  {
    assert forall k :: 0 <= k < j - i ==> From(text, p)[i..j][k] == text[p + i..p + j][k];
  }

  lemma FromIsNulFree(text: Bytes, p: int)
    requires IsCText(text) && 0 <= p < |text|
    ensures NulFree(From(text, p))
  {
    assert forall i :: p <= i < |text| - 1 ==> text[i] == text[..|text| - 1][i];
  }

  /** `isspace` in the C locale. */
  predicate IsSpace(c: byte) {
    9 <= c <= 13 || c == SPACE
  }

  function Spaces(n: nat): (r: Bytes)
    ensures |r| == n
  {
    seq(n, _ => SPACE)
  }

  predicate AllSpace(s: Bytes) {
    forall i :: 0 <= i < |s| ==> IsSpace(s[i])
  }

  predicate IsDigit(c: byte) {
    0x30 <= c <= 0x39
  }

  /** The six whitespace characters of the C locale: space, \t, \n, \v, \f and \r. */
  lemma SpacesListed(c: byte)
    ensures IsSpace(c) <==> c as int in {0x20, 0x09, 0x0A, 0x0B, 0x0C, 0x0D}
  {
  }

  /** The SKIP_WHITESPACES macro. */
  function SkipSpace(s: Bytes): (r: Bytes)
    ensures |r| <= |s|
    ensures !IsSpace(Peek(r))
  {
    if s != [] && IsSpace(s[0]) then SkipSpace(s[1..]) else s
  }

  lemma SkipSpaceStays(s: Bytes)
    ensures !IsSpace(Peek(s)) ==> SkipSpace(s) == s
  {
  }

  lemma SkipSpaceOverGap(gap: Bytes, s: Bytes)
    requires AllSpace(gap)
    ensures SkipSpace(gap + s) == SkipSpace(s)
  {
    if gap == [] {
      assert gap + s == s;
    } else {
      assert (gap + s)[1..] == gap[1..] + s;
      SkipSpaceOverGap(gap[1..], s);
    }
  }
}
