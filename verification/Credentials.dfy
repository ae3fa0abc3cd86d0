/**
 Credentials (lib/config.c, client/client.c): a user name, a password and a time, separated
 by spaces in the text of a message.
 */
module Credentials {
  import opened Bytes
  import opened Utf8
  import opened Numbers
  import opened Messages
  import opened Json
  import ParserMethods
  import Serializer
  import Soundness

  datatype User = User(username: Bytes, pass: Bytes, registerTime: int)

  const LONG_MIN: int := -0x8000_0000_0000_0000
  const LONG_MAX: int := 0x7FFF_FFFF_FFFF_FFFF

  /** The texts fit their 20-byte buffers and the time its 64 bits. */
  predicate Fits(u: User) {
    && NulFree(u.username) && |u.username| < MAX_CHARS
    && NulFree(u.pass) && |u.pass| < MAX_CHARS
    && LONG_MIN <= u.registerTime <= LONG_MAX
  }

  /** A text that "%s" reads back whole. */
  predicate Clean(w: Bytes) {
    w != [] && forall i :: 0 <= i < |w| ==> !IsSpace(w[i])
  }

  // --- Writing --------------------------------------------------------------------

  /** "%s %s %ld". */
  function CredentialText(u: User): Bytes {
    u.username + ([SPACE] + (u.pass + ([SPACE] + DecimalText(u.registerTime))))
  }

  /** `user2msg`. */
  function UserMessage(u: User): Option<Message> {
    if u.registerTime == 0 || u.username == [] then None
    else Some(Message(0, 0, [], CredentialText(u), 0, 0))
  }

  /** `user_msg` of the client, which checks nothing. */
  function LoginMessage(u: User, kind: int, sendTime: int): Message {
    Message(0, 0, u.username, CredentialText(u), sendTime, kind)
  }

  // --- Reading --------------------------------------------------------------------

  /** The bytes "%s" takes after the leading whitespace. */
  function Word(s: Bytes): (w: Bytes)
    ensures w <= s
    ensures w != [] ==> Clean(w)
    ensures |w| < |s| ==> IsSpace(s[|w|])
  {
    if s == [] || IsSpace(s[0]) then [] else [s[0]] + Word(s[1..])
  }

  /** The digits of "%ld" and what they denote; None without digits or beyond 64 bits. */
  function LongDigits(t: Bytes, negative: bool): (r: Option<int>)
    ensures r.Some? ==> LONG_MIN <= r.value <= LONG_MAX
  {
    var digits := t[..Span(t)];
    var m: int := DigitsValue(digits);
    var n := if negative then -m else m;
    if digits == [] || n < LONG_MIN || n > LONG_MAX then None else Some(n)
  }

  function ScanLong(s: Bytes): (r: Option<int>)
    ensures r.Some? ==> LONG_MIN <= r.value <= LONG_MAX
  {
    var t := SkipSpace(s);
    if Peek(t) == MINUS then LongDigits(t[1..], true)
    else if Peek(t) == PLUS then LongDigits(t[1..], false)
    else LongDigits(t, false)
  }

  /**
   `msg2user`. A conversion that fails leaves the time unset, and a word of 20 bytes or more
   runs over its buffer: both are undefined.
   */
  datatype Scanned = Scanned(user: User) | Unread

  function ScanUser(text: Bytes): Scanned {
    var s := SkipSpace(text);
    var username := Word(s);
    var t := SkipSpace(s[|username|..]);
    var pass := Word(t);
    if username == [] || pass == [] || |username| >= MAX_CHARS || |pass| >= MAX_CHARS then Unread
    else
      match ScanLong(t[|pass|..])
      case None => Unread
      case Some(n) => Scanned(User(username, pass, n))
  }

  // --- Reading undoes writing -----------------------------------------------------

  lemma {:induction false} WordOver(w: Bytes, rest: Bytes)
    requires forall i :: 0 <= i < |w| ==> !IsSpace(w[i])
    requires rest != [] && IsSpace(rest[0])
    ensures Word(w + rest) == w
  {
    if w == [] {
      assert w + rest == rest;
    } else {
      assert (w + rest)[1..] == w[1..] + rest;
      WordOver(w[1..], rest);
    }
  }

  lemma ScanLongUndoesPrint(n: int)
    requires LONG_MIN <= n <= LONG_MAX
    ensures ScanLong([SPACE] + DecimalText(n)) == Some(n)
  {
    hide Digits, Span, DigitsValue;
    var ds := Digits(if n < 0 then -n else n);
    DigitsShape(if n < 0 then -n else n);
    SpanOverDigits(ds, []);
    assert ds + [] == ds && ds[..|ds|] == ds;
    var d := DecimalText(n);
    SkipSpaceOverGap([SPACE], d);
    assert SkipSpace(d) == d;
    if n < 0 {
      assert d[1..] == ds;
    }
  }

  lemma {:induction false} WordThenSpace(w: Bytes, rest: Bytes)
    requires Clean(w) && rest != [] && IsSpace(rest[0])
    ensures SkipSpace([SPACE] + (w + rest)) == SkipSpace(w + rest) == w + rest
    ensures Word(w + rest) == w && (w + rest)[|w|..] == rest
  {
    SkipSpaceOverGap([SPACE], w + rest);
    assert !IsSpace((w + rest)[0]);
    WordOver(w, rest);
  }

  /**
   The credentials written as text are read back exactly when name and password are
   non-empty and free of whitespace.
   */
  lemma CredentialsRoundTrip(u: User)
    requires Fits(u)
    ensures ScanUser(CredentialText(u)) == Scanned(u) <==> Clean(u.username) && Clean(u.pass)
  {
    hide Word, ScanLong, SkipSpace, Digits, Clean;
    if Clean(u.username) && Clean(u.pass) {
      var tail := [SPACE] + DecimalText(u.registerTime);
      WordThenSpace(u.username, [SPACE] + (u.pass + tail));
      WordThenSpace(u.pass, tail);
      ScanLongUndoesPrint(u.registerTime);
      CleanIsNonEmpty(u.username);
      CleanIsNonEmpty(u.pass);
    }
  }

  lemma CleanIsNonEmpty(w: Bytes)
    requires Clean(w)
    ensures w != []
  {
  }

  /** Name, password and time stand in this order, each behind the first with one space in front of it. */
  lemma CredentialTextParts(u: User)
    ensures var t, n, p := CredentialText(u), |u.username|, |u.pass|;
      && |t| == n + p + 2 + |DecimalText(u.registerTime)|
      && t[..n] == u.username && t[n] == SPACE
      && t[n + 1..n + 1 + p] == u.pass && t[n + 1 + p] == SPACE
      && t[n + p + 2..] == DecimalText(u.registerTime)
  {
  }

  /** A number may have either sign and leading zeros, ends at its last digit, and must fit 64 bits. */
  lemma ScanLongReads(gap: Bytes, sign: Bytes, ds: Bytes, rest: Bytes)
    requires AllSpace(gap) && sign in {[], [PLUS], [MINUS]} && AllDigits(ds) && ds != [] && !IsDigit(Peek(rest))
    ensures
      var m: int := DigitsValue(ds);
      var n := if sign == [MINUS] then -m else m;
      ScanLong(gap + (sign + (ds + rest))) == if LONG_MIN <= n <= LONG_MAX then Some(n) else None
  {
    hide Span, DigitsValue, AllSpace;
    var u := ds + rest;
    var t := sign + u;
    SpanOverDigits(ds, rest);
    SpanIff(rest);
    assert u[..|ds|] == ds;
    assert t[0] == if sign == [] then ds[0] else sign[0];
    SkipSpaceOverGap(gap, t);
    SkipSpaceStays(t);
    assert if sign == [] then t == u else t[1..] == u;
  }

  /** A word of 20 bytes or more does not fit its buffer. */
  lemma LongWordIsUnread(name: Bytes, pass: Bytes, rest: Bytes)
    requires Clean(name) && Clean(pass) && (|name| >= 20 || |pass| >= 20)
    requires rest == [] || IsSpace(rest[0])
    ensures ScanUser(name + ([SPACE] + (pass + rest))) == Unread
  {
    hide Word, ScanLong, SkipSpace, Clean;
    var end := if rest == [] then [SPACE] else rest;
    WordThenSpace(name, [SPACE] + (pass + rest));
    WordToTheEnd(pass, rest);
  }

  lemma {:induction false} WordToTheEnd(w: Bytes, rest: Bytes)
    requires Clean(w) && (rest == [] || IsSpace(rest[0]))
    ensures SkipSpace([SPACE] + (w + rest)) == w + rest && Word(w + rest) == w
  {
    if rest != [] {
      WordThenSpace(w, rest);
    } else {
      assert w + rest == w;
      WholeWord(w);
      SkipSpaceOverGap([SPACE], w);
      SkipSpaceStays(w);
    }
  }

  lemma {:induction false} WholeWord(w: Bytes)
    requires forall i :: 0 <= i < |w| ==> !IsSpace(w[i])
    ensures Word(w) == w
  {
    if w != [] {
      WholeWord(w[1..]);
    }
  }

  /** Any whitespace is accepted around the words, and none is needed behind the number. */
  lemma ScanAnySpacing(u: User, g0: Bytes, g1: Bytes, g2: Bytes)
    requires Fits(u) && Clean(u.username) && Clean(u.pass)
    requires AllSpace(g0) && AllSpace(g1) && AllSpace(g2) && g1 != [] && g2 != []
    ensures ScanUser(g0 + (u.username + (g1 + (u.pass + (g2 + DecimalText(u.registerTime)))))) == Scanned(u)
  {
    hide Word, ScanLong, SkipSpace, Digits, Clean, AllSpace;
    var time := DecimalText(u.registerTime);
    var t2 := g2 + time;
    var t1 := g1 + (u.pass + t2);
    SpaceFirst(g1, u.pass + t2);
    SpaceFirst(g2, time);
    WordBehindGap(g0, u.username, t1);
    WordBehindGap(g1, u.pass, t2);
    ScanLongBehindGap(g2, u.registerTime);
    CleanIsNonEmpty(u.username);
    CleanIsNonEmpty(u.pass);
  }

  lemma SpaceFirst(gap: Bytes, t: Bytes)
    requires AllSpace(gap) && gap != []
    ensures gap + t != [] && IsSpace((gap + t)[0])
  {
  }

  lemma {:induction false} WordBehindGap(gap: Bytes, w: Bytes, rest: Bytes)
    requires AllSpace(gap) && Clean(w) && rest != [] && IsSpace(rest[0])
    ensures SkipSpace(gap + (w + rest)) == w + rest
    ensures Word(w + rest) == w && (w + rest)[|w|..] == rest
  {
    SkipSpaceOverGap(gap, w + rest);
    WordThenSpace(w, rest);
  }

  lemma ScanLongBehindGap(gap: Bytes, n: int)
    requires AllSpace(gap) && LONG_MIN <= n <= LONG_MAX
    ensures ScanLong(gap + DecimalText(n)) == Some(n)
  {
    hide LongDigits, SkipSpace;
    ScanLongUndoesPrint(n);
    SkipSpaceOverGap(gap, DecimalText(n));
    SkipSpaceOverGap([SPACE], DecimalText(n));
  }

  // --- Through the message layer --------------------------------------------------

  lemma LongLength(n: int)
    requires LONG_MIN <= n <= LONG_MAX
    ensures |DecimalText(n)| <= 20 && NulFree(DecimalText(n))
    ensures forall i :: 0 <= i < |DecimalText(n)| ==> DecimalText(n)[i] < 0x80
  {
    assert Pow10(4) == 10_000;
    assert Pow10(8) == 100_000_000;
    assert Pow10(12) == 1_000_000_000_000;
    assert Pow10(16) == 10_000_000_000_000_000;
    assert Pow10(19) == 10_000_000_000_000_000_000;
    var m: nat := if n < 0 then -n else n;
    DigitsLength(m, 19);
    DigitsShape(m);
  }

  /** The text fits the buffers of `user2msg` with room to spare. */
  lemma CredentialTextFits(u: User)
    requires Fits(u)
    ensures NulFree(CredentialText(u)) && |CredentialText(u)| <= 60 < MAX_MSG_DATA
  {
    LongLength(u.registerTime);
  }

  lemma CredentialTextIsUtf8(u: User)
    requires Fits(u)
    ensures IsValid(CredentialText(u)) <==> IsValid(u.username) && IsValid(u.pass)
  {
    hide IsValid, DecimalText;
    var time := DecimalText(u.registerTime);
    LongLength(u.registerTime);
    AsciiIsValid(time);
    SpacedIsUtf8(u.pass, time);
    SpacedIsUtf8(u.username, u.pass + ([SPACE] + time));
  }

  lemma SpacedIsUtf8(s: Bytes, t: Bytes)
    ensures IsValid(s + ([SPACE] + t)) <==> IsValid(s) && IsValid(t)
  {
    hide IsValid;
    var all := s + ([SPACE] + t);
    if IsValid(s) && IsValid(t) {
      AsciiIsValid([SPACE]);
      ValidConcat([SPACE], t);
      ValidConcat(s, [SPACE] + t);
    }
    if IsValid(all) {
      ValidSplit(all, |s|);
      assert all[..|s|] == s && all[|s|..] == [SPACE] + t;
      Soundness.StepKeepsUtf8([SPACE] + t);
      assert ([SPACE] + t)[1..] == t;
    }
  }

  /** What the receiver reads from a packed and unpacked message. */
  function Deliver(m: Message): Scanned {
    match UnpackText(PackText(m))
    case Restored(received) => ScanUser(received.msg)
    case _ => Unread
  }

  /** The user name and the password are words in well-formed UTF-8. */
  ghost predicate Survives(u: User) {
    Clean(u.username) && Clean(u.pass) && WellFormedUtf8(u.username) && WellFormedUtf8(u.pass)
  }

  lemma DeliverFollowsText(m: Message, u: User)
    requires InRange(m) && Fits(u) && m.msg == CredentialText(u)
    requires m.kind <= INT_MAX && (m.senderName == u.username || m.senderName == [])
    ensures Deliver(m) == Scanned(u) <==> Survives(u)
  {
    hide UnpackText, PackText, ScanUser, CredentialText, IsValid, WellFormedUtf8, Clean;
    MessageRoundTrip(m);
    CredentialsRoundTrip(u);
    CredentialTextIsUtf8(u);
    AsciiIsValid([]);
    IsValidIffWellFormed([]);
    IsValidIffWellFormed(u.username);
    IsValidIffWellFormed(u.pass);
    IsValidIffWellFormed(CredentialText(u));
  }

  /**
   From `user2msg` through packing, unpacking and `msg2user`: the user comes back exactly
   when the name and the password are words in well-formed UTF-8.
   */
  lemma UserMessageDelivers(u: User)
    requires Fits(u)
    ensures match UserMessage(u)
      case None => u.registerTime == 0 || u.username == []
      case Some(m) => InRange(m) && (Deliver(m) == Scanned(u) <==> Survives(u))
  {
    hide Survives, Deliver, CredentialText;
    CredentialTextFits(u);
    if UserMessage(u).Some? {
      DeliverFollowsText(UserMessage(u).value, u);
    }
  }

  /** The client's login and registration messages, whatever their declared type. */
  lemma LoginDelivers(u: User, kind: int, sendTime: int)
    requires Fits(u) && 0 <= kind <= INT_MAX && Exact(sendTime)
    ensures InRange(LoginMessage(u, kind, sendTime))
    ensures Deliver(LoginMessage(u, kind, sendTime)) == Scanned(u) <==> Survives(u)
  {
    hide Survives, Deliver, CredentialText;
    CredentialTextFits(u);
    DeliverFollowsText(LoginMessage(u, kind, sendTime), u);
  }

  /** The login message as it arrives: the type, time and sender asked for, and the text. */
  lemma LoginArrives(u: User, kind: int, sendTime: int)
    requires Fits(u) && 0 <= kind <= INT_MAX && Exact(sendTime)
    requires WellFormedUtf8(u.username) && WellFormedUtf8(u.pass)
    ensures match UnpackText(PackText(LoginMessage(u, kind, sendTime)))
      case Restored(m) =>
        && m.kind == kind && m.sendTime == sendTime && m.senderName == u.username
        && m.msgId == 0 && m.groupId == 0 && m.msg == CredentialText(u)
      case _ => false
  {
    hide UnpackText, PackText, CredentialText, IsValid, WellFormedUtf8;
    CredentialTextFits(u);
    MessageRoundTrip(LoginMessage(u, kind, sendTime));
    CredentialTextIsUtf8(u);
    IsValidIffWellFormed(u.username);
    IsValidIffWellFormed(u.pass);
    IsValidIffWellFormed(CredentialText(u));
  }

  /** `user2msg` fills in the text alone. */
  lemma UserMessageIsTextOnly(u: User)
    ensures match UserMessage(u)
      case None => true
      case Some(m) =>
        && m.msgId == 0 && m.groupId == 0 && m.senderName == [] && m.sendTime == 0 && m.kind == 0
        && m.msg == CredentialText(u)
  {
  }

  // --- The procedures -------------------------------------------------------------

  /** The fields of the user structure that a message carries. */
  class UserStruct {
    const username: array<byte>
    const pass: array<byte>
    var registerTime: int

    /** `new_user`: a zeroed structure. */
    constructor ()
      ensures fresh(username) && fresh(pass) && username != pass
      ensures username.Length == pass.Length == MAX_CHARS
      ensures Contents() == User([], [], 0)
    {
      username := new byte[MAX_CHARS](_ => 0);
      pass := new byte[MAX_CHARS](_ => 0);
      registerTime := 0;
    }

    function Contents(): User
      reads this, username, pass
    {
      User(CString(username[..]), CString(pass[..]), registerTime)
    }
  }

  /** `strcpy` between distinct buffers. */
  method StrCpy(dest: array<byte>, src: array<byte>)
    requires dest != src && |CString(src[..])| < src.Length && |CString(src[..])| < dest.Length
    modifies dest
    ensures CString(dest[..]) == CString(src[..])
    ensures var k := |CString(src[..])|;
      dest[..] == CString(src[..]) + [0] + old(dest[k + 1..])
  {
    hide CString;
    ghost var s := CString(src[..]);
    assert forall k :: 0 <= k < |s| ==> s[k] == src[k];
    var i := 0;
    while src[i] != 0
      invariant 0 <= i <= |s|
      invariant dest[..i] == s[..i]
      invariant forall k :: i <= k < dest.Length ==> dest[k] == old(dest[k])
      decreases |s| - i
    {
      assert src[i] == src[..][i];
      dest[i] := src[i];
      i := i + 1;
    }
    dest[i] := 0;
    assert dest[i + 1..] == old(dest[i + 1..]);
    assert dest[..] == s + [0] + dest[i + 1..];
    CStringStopsAtNul(s, dest[i + 1..]);
  }

  /** `user2msg`; null stands for the guard's refusal. */
  method User2Msg(user: UserStruct) returns (message: MessageStruct?)
    requires Fits(user.Contents())
    ensures message == null <==> UserMessage(user.Contents()) == None
    ensures message != null ==>
      fresh(message) && UserMessage(user.Contents()) == Some(message.Contents())
  {
    hide CString, CredentialText;
    ghost var u := user.Contents();
    if user.registerTime == 0 || CString(user.username[..]) == [] {
      return null;
    }
    message := new MessageStruct();
    var format := new byte[MAX_MSG_DATA](_ => 0);
    CredentialTextFits(u);
    var text := CredentialText(user.Contents());
    var written := Serializer.Sprintf(format, 0, text);
    assert format[..] == text + [0] + format[written + 1..];
    CStringStopsAtNul(text, format[written + 1..]);
    StrCpy(message.msg, format);
    EmptyCString(message.senderName);
  }

  lemma EmptyCString(a: array<byte>)
    requires a.Length > 0 && a[0] == 0
    ensures CString(a[..]) == []
  {
  }

  /** One "%s" conversion into a buffer that has room for the word. */
  method ScanWord(text: Bytes, p: nat, dest: array<byte>) returns (q: nat)
    requires IsCText(text) && p < |text|
    requires |Word(SkipSpace(From(text, p)))| < dest.Length
    modifies dest
    ensures q < |text|
    ensures var s := SkipSpace(From(text, p));
      CString(dest[..]) == Word(s) && From(text, q) == s[|Word(s)|..]
  {
    hide SkipSpace, From, Word, CString;
    q := ParserMethods.SkipWhitespaces(text, p);
    ghost var start := q;
    ghost var s := From(text, start);
    FromIsNulFree(text, start);
    var i := 0;
    while text[q] != 0 && !IsSpace(text[q])
      invariant start <= q < |text| && i == q - start <= |Word(s)|
      invariant dest[..i] == Word(s)[..i]
      decreases |text| - q
    {
      WordGoesOn(text, start, i);
      dest[i] := text[q];
      i, q := i + 1, q + 1;
    }
    WordEnds(text, start, i);
    dest[i] := 0;
    assert dest[..] == Word(s) + [0] + dest[i + 1..];
    CStringStopsAtNul(Word(s), dest[i + 1..]);
    FromDrop(text, start, i);
  }

  lemma WordGoesOn(text: Bytes, start: nat, i: nat)
    requires IsCText(text) && start + i < |text| && i <= |Word(From(text, start))|
    requires text[start + i] != 0 && !IsSpace(text[start + i])
    ensures i < |Word(From(text, start))| && Word(From(text, start))[i] == text[start + i]
    ensures start + i + 1 < |text|
  {
    hide Word;
    assert From(text, start + i) == From(text, start)[i..];
    assert From(text, start)[i] == text[start + i];
  }

  lemma WordEnds(text: Bytes, start: nat, i: nat)
    requires IsCText(text) && start + i < |text| && i <= |Word(From(text, start))|
    requires text[start + i] == 0 || IsSpace(text[start + i])
    ensures i == |Word(From(text, start))|
  {
    hide Word;
    var s := From(text, start);
    FromIsNulFree(text, start);
    assert forall k :: 0 <= k < |Word(s)| ==> Word(s)[k] == s[k] == text[start + k];
  }

  /** The "%ld" conversion. */
  method ReadLong(text: Bytes, p: nat) returns (n: int)
    requires IsCText(text) && p < |text| && ScanLong(From(text, p)).Some?
    ensures ScanLong(From(text, p)) == Some(n)
  {
    hide SkipSpace, From, Span, DigitsValue, NulFree;
    var q := ParserMethods.SkipWhitespaces(text, p);
    var negative := text[q] == MINUS;
    if negative || text[q] == PLUS {
      FromDrop(text, q, 1);
      q := q + 1;
    }
    ghost var t := From(text, q);
    ghost var start := q;
    NoDigits();
    assert t[..0] == [];
    n := 0;
    while IsDigit(text[q])
      invariant start <= q < |text| && q - start <= Span(t)
      invariant n == DigitsValue(t[..q - start])
      decreases |text| - q
    {
      DigitGoesOn(text, start, q - start);
      n := n * 10 + (text[q] as int - 0x30);
      q := q + 1;
    }
    DigitsEnd(text, start, q - start);
    if negative {
      n := -n;
    }
  }

  lemma NoDigits()
    ensures DigitsValue([]) == 0
  {
  }

  lemma DigitGoesOn(text: Bytes, start: nat, i: nat)
    requires IsCText(text) && start + i < |text| && i <= Span(From(text, start))
    requires IsDigit(text[start + i])
    ensures i < Span(From(text, start)) && start + i + 1 < |text|
    ensures var t := From(text, start);
      DigitsValue(t[..i + 1]) == DigitsValue(t[..i]) * 10 + (text[start + i] as int - 0x30)
  {
    hide Span;
    var t := From(text, start);
    assert t[i] == text[start + i];
    assert t[..i + 1][..i] == t[..i];
  }

  lemma DigitsEnd(text: Bytes, start: nat, i: nat)
    requires IsCText(text) && start + i < |text| && i <= Span(From(text, start))
    requires !IsDigit(text[start + i])
    ensures i == Span(From(text, start))
  {
    hide Span;
    var t := From(text, start);
    assert forall k :: 0 <= k < Span(t) ==> t[..Span(t)][k] == text[start + k];
  }

  /** `msg2user`, on the messages for which it is defined. */
  method Msg2User(message: MessageStruct) returns (user: UserStruct)
    requires |CString(message.msg[..])| < message.msg.Length
    requires ScanUser(CString(message.msg[..])).Scanned?
    ensures fresh(user) && fresh(user.username) && fresh(user.pass)
    ensures Scanned(user.Contents()) == ScanUser(CString(message.msg[..]))
  {
    hide CString, SkipSpace, Word, ScanLong;
    user := new UserStruct();
    var username := new byte[MAX_CHARS](_ => 0);
    var pass := new byte[MAX_CHARS](_ => 0);
    var text := message.msg[..|CString(message.msg[..])| + 1];
    assert text[..|text| - 1] == CString(message.msg[..]);
    assert From(text, 0) == CString(message.msg[..]);
    var q := ScanWord(text, 0, username);
    q := ScanWord(text, q, pass);
    var registerTime := ReadLong(text, q);
    StrCpy(user.username, username);
    StrCpy(user.pass, pass);
    user.registerTime := registerTime;
  }
}
