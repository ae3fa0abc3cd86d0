/**
 Comment removal of lib/parson.c: a scan that tracks quotes and escapes and blanks whatever
 lies between two tokens outside of strings.
 */
module Comments {
  import opened Bytes
  import opened Json
  import opened Strings
  import opened Glyphs
  import opened Numbers
  import opened Parser
  import opened Layout
  import opened RoundTrip
  import Style
  import ParserMethods

  const BLOCK_START: Bytes := [SLASH, STAR]
  const BLOCK_END: Bytes := [STAR, SLASH]
  const LINE_START: Bytes := [SLASH, SLASH]
  const LINE_END: Bytes := [NEWLINE]

  /** `strstr`: the first place where the token occurs. */
  function Find(s: Bytes, token: Bytes): (r: Option<nat>)
    requires token != []
    ensures r.Some? ==> r.value + |token| <= |s| && token <= s[r.value..]
  {
    if token <= s then Some(0)
    else if s == [] then None
    else
      match Find(s[1..], token)
      case None => None
      case Some(i) => Some(i + 1)
  }

  /** The length of the comment that starts here, with both of its tokens, if it ends at all. */
  function CommentLength(s: Bytes, start: Bytes, end: Bytes): (r: Option<nat>)
    requires start != [] && end != [] && start <= s
    ensures r.Some? ==> 0 < r.value <= |s|
  {
    match Find(s[|start|..], end)
    case None => None
    case Some(i) => Some(|start| + i + |end|)
  }

  /** `remove_comments` from a scanning state on. */
  function Strip(s: Bytes, inString: bool, escaped: bool, start: Bytes, end: Bytes): (r: Bytes)
    requires start != [] && end != []
    ensures |r| == |s|
    decreases |s|
  {
    if Peek(s) == 0 then s
    else if s[0] == BACKSLASH && !escaped then [s[0]] + Strip(s[1..], inString, true, start, end)
    else if s[0] == QUOTE && !escaped then [s[0]] + Strip(s[1..], !inString, false, start, end)
    else if !inString && start <= s then
      match CommentLength(s, start, end)
      case None => Spaces(|start|) + s[|start|..]
      case Some(n) => Spaces(n) + Strip(s[n..], false, false, start, end)
    else [s[0]] + Strip(s[1..], inString, false, start, end)
  }

  function RemoveComments(s: Bytes, start: Bytes, end: Bytes): Bytes {
    if start == [] || end == [] then s else Strip(s, false, false, start, end)
  }

  /** `json_parse_string_with_comments`; unlike `json_parse_string` it skips no byte order mark. */
  function ParseWithComments(s: Bytes): Parse {
    ParseValue(RemoveComments(RemoveComments(s, BLOCK_START, BLOCK_END), LINE_START, LINE_END), 0)
  }

  // --- The scan as it runs --------------------------------------------------------

  method MatchesAt(a: array<byte>, p: nat, token: Bytes) returns (ok: bool)
    requires IsCText(a[..]) && p < a.Length && NulFree(token)
    ensures ok <==> token <= From(a[..], p)
  {
    ghost var text := a[..];
    var i := 0;
    while i < |token| && a[p + i] == token[i]
      invariant 0 <= i <= |token| && p + i < a.Length
      invariant a[p..p + i] == token[..i]
      decreases |token| - i
    {
      assert a[p..p + i + 1] == token[..i + 1];
      i := i + 1;
    }
    FromTake(text, p, 0, i);
    assert text[p..p + i] == a[p..p + i];
    if i < |token| {
      FromDrop(text, p, i);
      return false;
    }
    return true;
  }

  lemma FindStep(s: Bytes, token: Bytes)
    requires token != []
    ensures token <= s ==> Find(s, token) == Some(0)
    ensures !(token <= s) && s == [] ==> Find(s, token) == None
    ensures !(token <= s) && s != [] ==>
      match Find(s[1..], token)
      case None => Find(s, token) == None
      case Some(i) => Find(s, token) == Some(i + 1)
  {
  }

  /** `strstr` from a position of the buffer. */
  method StrStr(a: array<byte>, p: nat, token: Bytes) returns (found: bool, q: nat)
    requires IsCText(a[..]) && p < a.Length && NulFree(token) && token != []
    ensures found <==> Find(From(a[..], p), token).Some?
    ensures found ==> q >= p && Find(From(a[..], p), token) == Some(q - p) && q + |token| < a.Length
  {
    hide NulFree, From, Find;
    ghost var text := a[..];
    q := p;
    while true
      invariant p <= q < a.Length
      invariant var f, g := Find(From(text, p), token), Find(From(text, q), token);
        (f.Some? <==> g.Some?) && (f.Some? ==> f.value == g.value + (q - p))
      decreases a.Length - q
    {
      var here := MatchesAt(a, q, token);
      FindStep(From(text, q), token);
      if here {
        return true, q;
      }
      if a[q] == 0 {
        return false, q;
      }
      FromDrop(text, q, 1);
      q := q + 1;
    }
  }

  /** A C string after blanking `n` bytes of it. */
  ghost function BlankedText(a: Bytes, p: nat, n: nat): (r: Bytes)
    requires p + n < |a|
    ensures |r| == |a|
  {
    a[..p] + Spaces(n) + a[p + n..]
  }

  method Blank(a: array<byte>, p: nat, n: nat)
    requires p + n < a.Length
    modifies a
    ensures a[..] == BlankedText(old(a[..]), p, n)
  {
    for i := 0 to n
      invariant a[..p] == old(a[..p]) && a[p + n..] == old(a[p + n..])
      invariant forall k :: p <= k < p + i ==> a[k] == SPACE
    {
      a[p + i] := SPACE;
    }
    assert a[..] == a[..p] + a[p..p + n] + a[p + n..];
    assert a[p..p + n] == Spaces(n);
  }

  /** With `front` final and `s` to be scanned in the given state, the whole comes out as `goal`. */
  ghost predicate Scanned(
    front: Bytes, s: Bytes, inString: bool, escaped: bool, start: Bytes, end: Bytes, goal: Bytes)
    requires start != [] && end != []
  {
    front + Strip(s, inString, escaped, start, end) + [0] == goal
  }

  lemma ScannedByte(
    front: Bytes, s: Bytes, inString: bool, escaped: bool, inString': bool, escaped': bool,
    start: Bytes, end: Bytes, goal: Bytes)
    requires start != [] && end != [] && s != []
    requires Scanned(front, s, inString, escaped, start, end, goal)
    requires Strip(s, inString, escaped, start, end) == [s[0]] + Strip(s[1..], inString', escaped', start, end)
    ensures Scanned(front + [s[0]], s[1..], inString', escaped', start, end, goal)
  {
    hide Strip;
    Regroup4(front, [s[0]], Strip(s[1..], inString', escaped', start, end), [0]);
  }

  lemma BlankedIsCText(a: Bytes, p: nat, n: nat)
    requires IsCText(a) && p + n < |a|
    ensures IsCText(BlankedText(a, p, n)) && |BlankedText(a, p, n)| == |a|
    ensures From(BlankedText(a, p, n), p + n) == From(a, p + n)
    ensures BlankedText(a, p, n)[..p + n] == a[..p] + Spaces(n)
  {
    var b := BlankedText(a, p, n);
    assert forall i :: 0 <= i < |a| - 1 ==> a[i] == a[..|a| - 1][i];
    assert forall i :: 0 <= i < p ==> b[i] == a[i];
    assert forall i :: p <= i < p + n ==> b[i] == SPACE;
    assert forall i :: p + n <= i < |a| ==> b[i] == a[i];
    assert b[p + n..|a| - 1] == a[p + n..|a| - 1];
  }

  lemma BlankedTwice(a: Bytes, p: nat, m: nat, n: nat)
    requires p + m + n < |a|
    ensures BlankedText(BlankedText(a, p, m), p + m, n) == BlankedText(a, p, m + n)
  {
    var b := BlankedText(a, p, m);
    assert b[..p + m] == a[..p] + Spaces(m);
    assert b[p + m + n..] == a[p + m + n..];
    assert Spaces(m) + Spaces(n) == Spaces(m + n);
    assert a[..p] + Spaces(m) + Spaces(n) == a[..p] + Spaces(m + n);
  }

  /** A comment that never ends: only its start token is blanked, and the scan stops. */
  lemma CommentUnclosed(front: Bytes, s: Bytes, escaped: bool, start: Bytes, end: Bytes, goal: Bytes)
    requires start != [] && end != [] && CommentAt(s, escaped, start)
    requires Find(s[|start|..], end) == None
    requires Scanned(front, s, false, escaped, start, end, goal)
    ensures front + Spaces(|start|) + s[|start|..] + [0] == goal
  {
    hide Find, Spaces, Strip;
    StripAtComment(s, escaped, start, end);
    Regroup4(front, Spaces(|start|), s[|start|..], [0]);
  }

  /** A comment that ends: it is blanked with both tokens, and the scan resumes behind it. */
  lemma {:induction false} CommentClosed(
    front: Bytes, s: Bytes, escaped: bool, start: Bytes, end: Bytes, i: nat, n: nat, goal: Bytes)
    requires start != [] && end != [] && CommentAt(s, escaped, start)
    requires Find(s[|start|..], end) == Some(i)
    requires n == |start| + i + |end| && n <= |s|
    requires Scanned(front, s, false, escaped, start, end, goal)
    ensures Scanned(front + Spaces(n), s[n..], false, false, start, end, goal)
  {
    hide Find, Spaces, Strip, CommentAt;
    StripComment(s, escaped, start, end, i, n);
    Regroup4(front, Spaces(n), Strip(s[n..], false, false, start, end), [0]);
  }

  lemma Regroup4(x: Bytes, y: Bytes, z: Bytes, w: Bytes)
    ensures x + (y + z) + w == x + y + z + w
  {
  }

  lemma {:induction false} StripComment(s: Bytes, escaped: bool, start: Bytes, end: Bytes, i: nat, n: nat)
    requires start != [] && end != [] && CommentAt(s, escaped, start)
    requires Find(s[|start|..], end) == Some(i)
    requires n == |start| + i + |end| && n <= |s|
    ensures Strip(s, false, escaped, start, end) == Spaces(n) + Strip(s[n..], false, false, start, end)
  {
    hide Strip, Find, Spaces, CommentLength, Peek;
    LengthOfComment(s, start, end, i);
    StripAtComment(s, escaped, start, end);
  }

  lemma LengthOfComment(s: Bytes, start: Bytes, end: Bytes, i: nat)
    requires start != [] && end != [] && start <= s
    requires Find(s[|start|..], end) == Some(i)
    ensures CommentLength(s, start, end) == Some(|start| + i + |end|)
  {
    hide Find;
  }

  lemma StripAtComment(s: Bytes, escaped: bool, start: Bytes, end: Bytes)
    requires start != [] && end != [] && CommentAt(s, escaped, start)
    ensures Strip(s, false, escaped, start, end) ==
      match CommentLength(s, start, end)
      case None => Spaces(|start|) + s[|start|..]
      case Some(n) => Spaces(n) + Strip(s[n..], false, false, start, end)
  {
    hide CommentLength, Spaces;
    assert s[0] == Peek(s);
    assert !(s[0] == BACKSLASH && !escaped) && !(s[0] == QUOTE && !escaped);
  }

  /** The condition of the comment branch, outside of strings. */
  ghost predicate CommentAt(s: Bytes, escaped: bool, start: Bytes) {
    && Peek(s) != 0 && start <= s
    && (Peek(s) == BACKSLASH || Peek(s) == QUOTE ==> escaped)
  }

  /** One byte of the scan, by the branch it takes. */
  lemma ScanStep(front: Bytes, s: Bytes, inString: bool, escaped: bool, start: Bytes, end: Bytes, goal: Bytes)
    requires start != [] && end != [] && Peek(s) != 0
    requires Scanned(front, s, inString, escaped, start, end, goal)
    ensures
      var front' := front + [s[0]];
      if s[0] == BACKSLASH && !escaped then Scanned(front', s[1..], inString, true, start, end, goal)
      else if s[0] == QUOTE && !escaped then Scanned(front', s[1..], !inString, false, start, end, goal)
      else if !inString && start <= s then CommentAt(s, escaped, start)
      else Scanned(front', s[1..], inString, false, start, end, goal)
  {
    hide Find, Scanned;
    if s[0] == BACKSLASH && !escaped {
      ScannedByte(front, s, inString, escaped, inString, true, start, end, goal);
    } else if s[0] == QUOTE && !escaped {
      ScannedByte(front, s, inString, escaped, !inString, false, start, end, goal);
    } else if !(!inString && start <= s) {
      ScannedByte(front, s, inString, escaped, inString, false, start, end, goal);
    }
  }

  /** The scan of a buffer that holds a C string, from a position on. */
  ghost predicate ScannedAt(
    a: Bytes, p: nat, inString: bool, escaped: bool, start: Bytes, end: Bytes, goal: Bytes)
    requires start != [] && end != []
  {
    IsCText(a) && p < |a| && Scanned(a[..p], From(a, p), inString, escaped, start, end, goal)
  }

  lemma ScanStart(a: Bytes, start: Bytes, end: Bytes)
    requires IsCText(a) && start != [] && end != []
    ensures ScannedAt(a, 0, false, false, start, end, RemoveComments(a[..|a| - 1], start, end) + [0])
  {
    hide Strip;
    assert From(a, 0) == a[..|a| - 1];
    var u := Strip(a[..|a| - 1], false, false, start, end);
    assert a[..0] + u == u;
  }

  lemma ScanEnd(a: Bytes, p: nat, inString: bool, escaped: bool, start: Bytes, end: Bytes, goal: Bytes)
    requires start != [] && end != []
    requires ScannedAt(a, p, inString, escaped, start, end, goal) && a[p] == 0
    ensures a == goal
  {
    assert a[..p] + [] + [0] == a;
  }

  lemma ScanStepAt(a: Bytes, p: nat, inString: bool, escaped: bool, start: Bytes, end: Bytes, goal: Bytes)
    requires start != [] && end != []
    requires ScannedAt(a, p, inString, escaped, start, end, goal) && a[p] != 0
    ensures p + 1 < |a|
    ensures
      if a[p] == BACKSLASH && !escaped then ScannedAt(a, p + 1, inString, true, start, end, goal)
      else if a[p] == QUOTE && !escaped then ScannedAt(a, p + 1, !inString, false, start, end, goal)
      else if !inString && start <= From(a, p) then CommentAt(From(a, p), escaped, start)
      else ScannedAt(a, p + 1, inString, false, start, end, goal)
  {
    hide Scanned, NulFree, From;
    ScanStep(a[..p], From(a, p), inString, escaped, start, end, goal);
    FromDrop(a, p, 1);
    assert a[..p + 1] == a[..p] + [a[p]];
  }

  lemma NothingToRemove(a: Bytes, start: Bytes, end: Bytes)
    requires IsCText(a) && (start == [] || end == [])
    ensures a == RemoveComments(a[..|a| - 1], start, end) + [0]
  {
  }

  /** `remove_comments`, in place. */
  method RemoveCommentsInPlace(a: array<byte>, start: Bytes, end: Bytes)
    requires IsCText(a[..]) && NulFree(start) && NulFree(end)
    modifies a
    ensures a[..] == RemoveComments(old(a[..])[..a.Length - 1], start, end) + [0]
  {
    assert a.Length > 0;
    hide NulFree, IsCText, From, ScannedAt, CommentAt, RemoveComments, Strip, Find, Spaces, Scanned;
    ghost var goal := RemoveComments(a[..][..a.Length - 1], start, end) + [0];
    if |start| == 0 || |end| == 0 {
      NothingToRemove(a[..], start, end);
      return;
    }
    var inString, escaped := false, false;
    var p: nat := 0;
    ScanStart(a[..], start, end);
    while a[p] != 0
      invariant p < a.Length && IsCText(a[..])
      invariant ScannedAt(a[..], p, inString, escaped, start, end, goal)
      decreases a.Length - p
    {
      ScanStepAt(a[..], p, inString, escaped, start, end, goal);
      var c := a[p];
      var comment := MatchesAt(a, p, start);
      if c == BACKSLASH && !escaped {
        escaped := true;
        p := p + 1;
        continue;
      } else if c == QUOTE && !escaped {
        inString := !inString;
      } else if !inString && comment {
        p := BlankComment(a, p, escaped, start, end, goal);
        if p == a.Length {
          return;
        }
        p := p - 1;
      }
      escaped := false;
      p := p + 1;
    }
    ScanEnd(a[..], p, inString, escaped, start, end, goal);
  }

  /** The comment branch: the position after the comment, or `a.Length` when nothing ends it. */
  method BlankComment(a: array<byte>, p: nat, ghost escaped: bool, start: Bytes, end: Bytes, ghost goal: Bytes)
    returns (q: nat)
    requires IsCText(a[..]) && NulFree(start) && NulFree(end) && start != [] && end != []
    requires p < a.Length && start <= From(a[..], p) && CommentAt(From(a[..], p), escaped, start)
    requires ScannedAt(a[..], p, false, escaped, start, end, goal)
    modifies a
    ensures q == a.Length ==> a[..] == goal
    ensures q != a.Length ==> p < q < a.Length && IsCText(a[..]) && ScannedAt(a[..], q, false, false, start, end, goal)
  {
    hide NulFree, IsCText, ScannedAt, BlankedText, Spaces, From, CommentAt, Find;
    ghost var was := a[..];
    ghost var n0 := |start|;
    StartFits(was, p, start);
    Blank(a, p, |start|);
    BlankedIsCText(was, p, n0);
    var r := p + |start|;
    ghost var mid := a[..];
    assert From(mid, r) == From(was, r);
    var found, at := StrStr(a, r, end);
    if !found {
      UnclosedAt(was, p, escaped, start, end, goal);
      return a.Length;
    }
    var n := at - r + |end|;
    ghost var i := at - r;
    Blank(a, r, n);
    BlankedTwice(was, p, n0, n);
    ClosedAt(was, p, escaped, start, end, goal, i, n0 + n);
    assert p + (n0 + n) == at + |end|;
    return at + |end|;
  }

  lemma StartFits(a: Bytes, p: nat, start: Bytes)
    requires IsCText(a) && p < |a| && start <= From(a, p)
    ensures p + |start| < |a|
  {
  }

  lemma UnclosedAt(a: Bytes, p: nat, escaped: bool, start: Bytes, end: Bytes, goal: Bytes)
    requires IsCText(a) && start != [] && end != [] && p + |start| < |a|
    requires CommentAt(From(a, p), escaped, start) && Find(From(a, p + |start|), end) == None
    requires ScannedAt(a, p, false, escaped, start, end, goal)
    ensures BlankedText(a, p, |start|) == goal
  {
    hide Find, NulFree, Scanned, Spaces, CommentAt;
    FromDrop(a, p, |start|);
    CommentUnclosed(a[..p], From(a, p), escaped, start, end, goal);
    assert From(a, p + |start|) + [0] == a[p + |start|..];
    var t := From(a, p + |start|);
    assert a[..p] + Spaces(|start|) + t + [0] == a[..p] + Spaces(|start|) + (t + [0]);
  }

  lemma {:induction false} ClosedAt(
    a: Bytes, p: nat, escaped: bool, start: Bytes, end: Bytes, goal: Bytes, i: nat, n: nat)
    requires IsCText(a) && start != [] && end != [] && p + |start| < |a|
    requires CommentAt(From(a, p), escaped, start) && Find(From(a, p + |start|), end) == Some(i)
    requires n == |start| + i + |end| && p + n < |a|
    requires ScannedAt(a, p, false, escaped, start, end, goal)
    ensures IsCText(BlankedText(a, p, n))
    ensures ScannedAt(BlankedText(a, p, n), p + n, false, false, start, end, goal)
  {
    hide Find, NulFree, Scanned, Spaces, CommentAt, From, BlankedText, IsCText;
    FromDrop(a, p, |start|);
    FromDrop(a, p, n);
    CommentClosed(a[..p], From(a, p), escaped, start, end, i, n, goal);
    BlankedIsCText(a, p, n);
  }

  lemma {:induction false} StripKeepsCText(s: Bytes, inString: bool, escaped: bool, start: Bytes, end: Bytes)
    requires NulFree(s) && start != [] && end != []
    ensures NulFree(Strip(s, inString, escaped, start, end))
    decreases |s|
  {
    hide CommentLength;
    if s != [] {
      StripKeepsCText(s[1..], inString, true, start, end);
      StripKeepsCText(s[1..], !inString, false, start, end);
      StripKeepsCText(s[1..], inString, false, start, end);
      if start <= s && CommentLength(s, start, end).Some? {
        StripKeepsCText(s[CommentLength(s, start, end).value..], false, false, start, end);
      }
    }
  }

  /** Removal changes no byte into anything but a space. */
  lemma {:induction false} StripOnlyBlanks(s: Bytes, inString: bool, escaped: bool, start: Bytes, end: Bytes)
    requires start != [] && end != []
    ensures forall i :: 0 <= i < |s| ==>
      var r := Strip(s, inString, escaped, start, end); r[i] == s[i] || r[i] == SPACE
    decreases |s|
  {
    hide CommentLength;
    if Peek(s) != 0 {
      StripOnlyBlanks(s[1..], inString, true, start, end);
      StripOnlyBlanks(s[1..], !inString, false, start, end);
      StripOnlyBlanks(s[1..], inString, false, start, end);
      if start <= s && CommentLength(s, start, end).Some? {
        var n := CommentLength(s, start, end).value;
        StripOnlyBlanks(s[n..], false, false, start, end);
        assert forall i :: n <= i < |s| ==> s[i] == s[n..][i - n];
      }
      assert forall i :: 1 <= i < |s| ==> s[i] == s[1..][i - 1];
    }
  }

  lemma TokensSpelled()
    ensures BLOCK_START == Ascii("/*") && BLOCK_END == Ascii("*/") && LINE_START == Ascii("//") && LINE_END == Ascii("\n")
  {
  }

  lemma RemovalKeepsCText(text: Bytes, start: Bytes, end: Bytes)
    requires IsCText(text)
    ensures IsCText(RemoveComments(text[..|text| - 1], start, end) + [0])
  {
    hide Strip;
    var s := text[..|text| - 1];
    var r := RemoveComments(s, start, end);
    if start != [] && end != [] {
      StripKeepsCText(s, false, false, start, end);
    }
    assert (r + [0])[..|r + [0]| - 1] == r;
  }

  /** `json_parse_string_with_comments`: two passes over a copy of the text, which is then parsed. */
  method JsonParseStringWithComments(text: Bytes) returns (r: ParserMethods.Outcome)
    requires IsCText(text)
    ensures match ParseWithComments(text[..|text| - 1])
      case Parsed(v, _) => r == ParserMethods.Value(v)
      case Rejected => r == ParserMethods.Failed
      case Foreign => r == ParserMethods.Unknown
  {
    hide IsCText, RemoveComments, ParseValue, From, NulFree;
    CTextIsNonEmpty(text);
    var copy := new byte[|text|](i requires 0 <= i < |text| => text[i]);
    assert copy[..] == text;
    RemovalKeepsCText(text, BLOCK_START, BLOCK_END);
    TokensAreNulFree();
    RemoveCommentsInPlace(copy, BLOCK_START, BLOCK_END);
    RemovalKeepsCText(copy[..], LINE_START, LINE_END);
    ghost var once := RemoveComments(text[..|text| - 1], BLOCK_START, BLOCK_END);
    assert copy[..][..copy.Length - 1] == once;
    RemoveCommentsInPlace(copy, LINE_START, LINE_END);
    FromStart(copy[..]);
    var p;
    r, p := ParserMethods.ParseValueAt(copy[..], 0, 0);
  }

  lemma CTextIsNonEmpty(text: Bytes)
    requires IsCText(text)
    ensures |text| > 0
  {
  }

  lemma FromStart(text: Bytes)
    requires IsCText(text)
    ensures |text| > 0 && From(text, 0) == text[..|text| - 1]
  {
  }

  lemma TokensAreNulFree()
    ensures NulFree(BLOCK_START) && NulFree(BLOCK_END) && NulFree(LINE_START) && NulFree(LINE_END)
  {
  }

  // --- Printed text holds no comments ---------------------------------------------

  /** Bytes that neither open a string, nor escape, nor can start a comment. */
  predicate Plain(t: Bytes) {
    forall i :: 0 <= i < |t| ==> t[i] != 0 && t[i] != QUOTE && t[i] != BACKSLASH && t[i] != SLASH
  }

  /** The scan leaves `t` alone and is back outside of strings behind it. */
  ghost predicate Kept(t: Bytes, rest: Bytes, start: Bytes, end: Bytes)
    requires start != [] && end != []
  {
    Strip(t + rest, false, false, start, end) == t + Strip(rest, false, false, start, end)
  }

  lemma {:induction false} PlainIsKept(t: Bytes, rest: Bytes, start: Bytes, end: Bytes)
    requires Plain(t) && start != [] && end != [] && start[0] == SLASH
    ensures Kept(t, rest, start, end)
  {
    if t == [] {
      assert t + rest == rest;
    } else {
      var s := t + rest;
      assert s[0] == t[0] && s[1..] == t[1..] + rest;
      PlainIsKept(t[1..], rest, start, end);
      assert !(start <= s);
      var u := Strip(rest, false, false, start, end);
      assert [t[0]] + (t[1..] + u) == t + u;
    }
  }

  lemma BackslashIsKept(c: byte, rest: Bytes, start: Bytes, end: Bytes)
    requires c != 0 && start != [] && end != []
    ensures Strip([BACKSLASH, c] + rest, true, false, start, end)
      == [BACKSLASH, c] + Strip(rest, true, false, start, end)
  {
    var s := [BACKSLASH, c] + rest;
    assert s[1..] == [c] + rest && s[1..][1..] == rest;
    var u := Strip(rest, true, false, start, end);
    assert Strip(s[1..], true, true, start, end) == [c] + u;
    assert [BACKSLASH] + ([c] + u) == [BACKSLASH, c] + u;
  }

  lemma {:induction false} InsideIsKept(t: Bytes, rest: Bytes, start: Bytes, end: Bytes)
    requires forall i :: 0 <= i < |t| ==> t[i] != 0 && t[i] != QUOTE && t[i] != BACKSLASH
    requires start != [] && end != []
    ensures Strip(t + rest, true, false, start, end) == t + Strip(rest, true, false, start, end)
  {
    if t == [] {
      assert t + rest == rest;
    } else {
      var s := t + rest;
      assert s[0] == t[0] && s[1..] == t[1..] + rest;
      InsideIsKept(t[1..], rest, start, end);
      var u := Strip(rest, true, false, start, end);
      assert [t[0]] + (t[1..] + u) == t + u;
    }
  }

  lemma CodeIsKept(h: Bytes, rest: Bytes, start: Bytes, end: Bytes)
    requires IsHex4(h) && start != [] && end != []
    ensures Strip([BACKSLASH, LOWER_U] + h + rest, true, false, start, end)
      == [BACKSLASH, LOWER_U] + h + Strip(rest, true, false, start, end)
  {
    hide Strip;
    assert [BACKSLASH, LOWER_U] + h + rest == [BACKSLASH, LOWER_U] + (h + rest);
    BackslashIsKept(LOWER_U, h + rest, start, end);
    InsideIsKept(h, rest, start, end);
    var u := Strip(rest, true, false, start, end);
    assert [BACKSLASH, LOWER_U] + (h + u) == [BACKSLASH, LOWER_U] + h + u;
  }

  /** Inside a string, any legal spelling of a character is kept and the scan stays inside, unescaped. */
  lemma GlyphIsKept(g: Glyph, rest: Bytes, start: Bytes, end: Bytes)
    requires Legal(g) && start != [] && end != []
    ensures Strip(Spell(g) + rest, true, false, start, end) == Spell(g) + Strip(rest, true, false, start, end)
  {
    hide Strip;
    match g
    case Plain(c) => InsideIsKept([c], rest, start, end);
    case Short(l) => BackslashIsKept(l, rest, start, end);
    case Code(h) => CodeIsKept(h, rest, start, end);
    case Pair(l, t) =>
      var trail := [BACKSLASH, LOWER_U] + t;
      var u := Strip(rest, true, false, start, end);
      assert Spell(g) + rest == [BACKSLASH, LOWER_U] + l + (trail + rest);
      CodeIsKept(l, trail + rest, start, end);
      CodeIsKept(t, rest, start, end);
      assert [BACKSLASH, LOWER_U] + l + (trail + u) == Spell(g) + u;
  }

  lemma {:induction false} GlyphsAreKept(gs: seq<Glyph>, rest: Bytes, start: Bytes, end: Bytes)
    requires AllLegal(gs) && start != [] && end != []
    ensures Strip(SpellAll(gs) + ([QUOTE] + rest), true, false, start, end)
      == SpellAll(gs) + ([QUOTE] + Strip(rest, false, false, start, end))
  {
    hide Strip, Spell, Legal;
    var u := [QUOTE] + Strip(rest, false, false, start, end);
    if gs == [] {
      assert SpellAll(gs) + ([QUOTE] + rest) == [QUOTE] + rest;
      QuoteToggles(rest, true, start, end);
      assert SpellAll(gs) + u == u;
    } else {
      var t := SpellAll(gs[1..]) + ([QUOTE] + rest);
      assert SpellAll(gs) + ([QUOTE] + rest) == Spell(gs[0]) + t;
      GlyphIsKept(gs[0], t, start, end);
      GlyphsAreKept(gs[1..], rest, start, end);
      assert Spell(gs[0]) + (SpellAll(gs[1..]) + u) == SpellAll(gs) + u;
    }
  }

  /** A string is kept, however it is spelled, even when it contains the comment tokens. */
  lemma StringTokenIsKept(gs: seq<Glyph>, rest: Bytes, start: Bytes, end: Bytes)
    requires AllLegal(gs) && start != [] && end != []
    ensures Kept(StringToken(gs), rest, start, end)
  {
    hide Strip, SpellAll, AllLegal;
    var t := SpellAll(gs) + ([QUOTE] + rest);
    assert StringToken(gs) + rest == [QUOTE] + t;
    QuoteToggles(t, false, start, end);
    GlyphsAreKept(gs, rest, start, end);
    var u := Strip(rest, false, false, start, end);
    assert [QUOTE] + (SpellAll(gs) + ([QUOTE] + u)) == StringToken(gs) + u;
  }

  lemma QuoteToggles(rest: Bytes, inString: bool, start: Bytes, end: Bytes)
    requires start != [] && end != []
    ensures Strip([QUOTE] + rest, inString, false, start, end) == [QUOTE] + Strip(rest, !inString, false, start, end)
  {
    assert ([QUOTE] + rest)[1..] == rest;
  }

  ghost predicate TokenShape(t: Bytes) {
    Plain(t) || exists gs :: AllLegal(gs) && t == StringToken(gs)
  }

  ghost predicate TokenShapes(tokens: seq<Bytes>) {
    forall i :: 0 <= i < |tokens| ==> TokenShape(tokens[i])
  }

  lemma {:induction false} TokensHaveShape(sp: Spelling)
    requires Grammatical(sp)
    ensures TokenShapes(Tokens(sp))
    decreases sp, 1
  {
    hide AllLegal, StringToken, Digits, TokenShape;
    PunctuationShape();
    match sp
    case Keyword(v) => KeywordShape();
    case Decimal(n) => DecimalShape(n);
    case Literal(gs) => NameShape(gs);
    case List(items) => ItemTokensHaveShape(items);
    case Record(fields) => FieldTokensHaveShape(fields);
  }

  lemma KeywordShape()
    ensures TokenShape(TRUE) && TokenShape(FALSE) && TokenShape(NULL)
  {
  }

  lemma DecimalShape(n: int)
    ensures TokenShape(DecimalText(n))
  {
    DigitsShape(if n < 0 then -n else n);
    assert Plain(DecimalText(n));
  }

  lemma {:induction false} ItemTokensHaveShape(items: seq<Spelling>)
    requires GrammaticalItems(items)
    ensures TokenShapes(ItemTokens(items))
    decreases items, 0
  {
    hide Grammatical, TokenShape, Tokens;
    if items != [] {
      TokensHaveShape(items[0]);
      ItemTokensHaveShape(items[1..]);
      PunctuationShape();
    }
  }

  lemma {:induction false} FieldTokensHaveShape(fields: seq<Field>)
    requires GrammaticalFields(fields)
    ensures TokenShapes(FieldTokens(fields))
    decreases fields, 0
  {
    hide Grammatical, TokenShape, Tokens, StringToken, AllLegal;
    if fields != [] {
      TokensHaveShape(fields[0].value);
      FieldTokensHaveShape(fields[1..]);
      NameShape(fields[0].name);
      PunctuationShape();
    }
  }

  lemma NameShape(gs: seq<Glyph>)
    requires AllLegal(gs)
    ensures TokenShape(StringToken(gs))
  {
  }

  lemma PunctuationShape()
    ensures TokenShape([COMMA]) && TokenShape([COLON])
    ensures TokenShape([LBRACKET]) && TokenShape([RBRACKET]) && TokenShape([LBRACE]) && TokenShape([RBRACE])
  {
  }

  lemma {:induction false} WovenIsKept(
    gaps: seq<Bytes>, tokens: seq<Bytes>, rest: Bytes, start: Bytes, end: Bytes)
    requires |gaps| == |tokens| && Gaps(gaps) && TokenShapes(tokens)
    requires start != [] && end != [] && start[0] == SLASH
    ensures Kept(Weave(gaps, tokens), rest, start, end)
  {
    hide Strip;
    if gaps == [] {
      assert Weave(gaps, tokens) + rest == rest;
      assert [] + Strip(rest, false, false, start, end) == Strip(rest, false, false, start, end);
    } else {
      var more := Weave(gaps[1..], tokens[1..]);
      WovenIsKept(gaps[1..], tokens[1..], rest, start, end);
      TokenIsKept(tokens[0], more + rest, start, end);
      PlainIsKept(gaps[0], tokens[0] + (more + rest), start, end);
      assert Weave(gaps, tokens) + rest == gaps[0] + (tokens[0] + (more + rest));
      var u := Strip(rest, false, false, start, end);
      assert gaps[0] + (tokens[0] + (more + u)) == Weave(gaps, tokens) + u;
    }
  }

  lemma TokenIsKept(t: Bytes, rest: Bytes, start: Bytes, end: Bytes)
    requires TokenShape(t) && start != [] && end != [] && start[0] == SLASH
    ensures Kept(t, rest, start, end)
  {
    if Plain(t) {
      PlainIsKept(t, rest, start, end);
    } else {
      var gs :| AllLegal(gs) && t == StringToken(gs);
      StringTokenIsKept(gs, rest, start, end);
    }
  }

  /**
   Comment removal with any tokens of which the first begins with a slash changes nothing in
   a text the grammar allows, whatever its strings contain.
   */
  lemma GrammaticalHasNoComments(sp: Spelling, gaps: seq<Bytes>, start: Bytes, end: Bytes)
    requires Grammatical(sp) && |gaps| == |Tokens(sp)| && Gaps(gaps) && (start != [] ==> start[0] == SLASH)
    ensures RemoveComments(Weave(gaps, Tokens(sp)), start, end) == Weave(gaps, Tokens(sp))
  {
    hide Strip, Tokens, Weave, Grammatical;
    if start != [] && end != [] {
      var s := Weave(gaps, Tokens(sp));
      assert s + [] == s;
      TokensHaveShape(sp);
      WovenIsKept(gaps, Tokens(sp), [], start, end);
      StripNothing(start, end);
    }
  }

  lemma StripNothing(start: Bytes, end: Bytes)
    requires start != [] && end != []
    ensures Strip([], false, false, start, end) == []
  {
  }

  /** In particular, nothing in the serializer's output is taken for a comment. */
  lemma PrintedHasNoComments(v: Json, level: nat, pretty: bool, start: Bytes, end: Bytes)
    requires Printable(v) && (start != [] ==> start[0] == SLASH)
    ensures RemoveComments(Text(v, level, pretty), start, end) == Text(v, level, pretty)
  {
    hide RemoveComments, Tokens, Text, Printable;
    var gaps := Style.TextIsWoven(v, level, pretty, []);
    assert [] + Text(v, level, pretty) == Text(v, level, pretty);
    CanonicalDenotes(v);
    GrammaticalHasNoComments(Canonical(v), gaps, start, end);
  }

  /** The parser with comments undoes the serializer, too. */
  lemma ParseWithCommentsUndoesPrint(v: Json, pretty: bool)
    requires Printable(v)
    ensures ParseWithComments(Text(v, 0, pretty)) ==
      if Height(v) <= MAX_NESTING then Parsed(v, []) else Rejected
  {
    var s := Text(v, 0, pretty);
    PrintedHasNoComments(v, 0, pretty, BLOCK_START, BLOCK_END);
    PrintedHasNoComments(v, 0, pretty, LINE_START, LINE_END);
    assert [] + s + [] == s;
    ParseUndoesPrint(v, 0, pretty, [], [], 0);
  }

  // --- What the first pass makes of a line ----------------------------------------

  /** A text without NUL or newline. */
  predicate WithinLine(t: Bytes) {
    forall i :: 0 <= i < |t| ==> t[i] != 0 && t[i] != NEWLINE
  }

  /** A text whose only newline is its last byte. */
  predicate IsLine(t: Bytes) {
    t != [] && t[|t| - 1] == NEWLINE && WithinLine(t[..|t| - 1])
  }

  /**
   The pass for block comments scanned over a text: whether it ends inside of a string, or
   None when a block comment that starts in the text does not end in it.
   */
  function ScanText(t: Bytes, inString: bool, escaped: bool): Option<bool>
    decreases |t|
  {
    if t == [] then Some(inString)
    else if t[0] == BACKSLASH && !escaped then ScanText(t[1..], inString, true)
    else if t[0] == QUOTE && !escaped then ScanText(t[1..], !inString, false)
    else if !inString && BLOCK_START <= t then
      match CommentLength(t, BLOCK_START, BLOCK_END)
      case None => None
      case Some(n) => ScanText(t[n..], false, false)
    else ScanText(t[1..], inString, false)
  }

  lemma OrdinaryIsKept(c: byte, rest: Bytes, start: Bytes, end: Bytes)
    requires c != 0 && c != QUOTE && c != BACKSLASH && |start| == 2 && end != []
    requires c != start[0] || Peek(rest) != start[1]
    ensures Strip([c] + rest, false, false, start, end) == [c] + Strip(rest, false, false, start, end)
  {
    var s := [c] + rest;
    assert s[1..] == rest;
    NoStart(start, s);
  }

  lemma NoStart(start: Bytes, s: Bytes)
    requires |start| == 2
    requires s == [] || s[0] != start[0] || Peek(s[1..]) != start[1]
    ensures !(start <= s)
  {
    assert |s| >= 2 ==> s[1..][0] == s[1];
  }

  lemma StartsWithTwo(start: Bytes, s: Bytes)
    requires |start| == 2
    ensures start <= s <==> s != [] && s[1..] != [] && s[0] == start[0] && s[1..][0] == start[1]
  {
    assert |s| >= 2 ==> s[1..][0] == s[1];
  }

  /** A block comment starts with this byte. */
  predicate Opens(c: byte, rest: Bytes, inString: bool) {
    !inString && c == SLASH && Peek(rest) == STAR
  }

  /** One byte of the pass that starts no comment. */
  lemma ByteStep(c: byte, rest: Bytes, inString: bool, escaped: bool)
    requires c != 0 && !Opens(c, rest, inString)
    ensures
      var backslash, quote := c == BACKSLASH && !escaped, c == QUOTE && !escaped;
      && Strip([c] + rest, inString, escaped, BLOCK_START, BLOCK_END)
         == [c] + Strip(rest, inString != quote, backslash, BLOCK_START, BLOCK_END)
      && ScanText([c] + rest, inString, escaped) == ScanText(rest, inString != quote, backslash)
  {
    var s := [c] + rest;
    assert s[1..] == rest && s[0] == c;
    StartsWithTwo(BLOCK_START, s);
  }

  lemma OpensComment(s: Bytes)
    ensures s != [] && Opens(s[0], s[1..], false) <==> BLOCK_START <= s
  {
    StartsWithTwo(BLOCK_START, s);
  }

  lemma {:induction false} FindIsStable(s: Bytes, token: Bytes, rest: Bytes)
    requires token != [] && Find(s, token).Some?
    ensures Find(s + rest, token) == Find(s, token)
  {
    hide Find;
    FindStep(s, token);
    FindStep(s + rest, token);
    if token <= s {
      assert token <= s + rest;
    } else {
      assert !(token <= s + rest) by {
        assert |token| <= |s|;
        assert (s + rest)[..|token|] == s[..|token|];
      }
      assert (s + rest)[1..] == s[1..] + rest;
      FindIsStable(s[1..], token, rest);
    }
  }

  /** A block comment of a line ends before the newline, and what follows it is a line. */
  lemma CommentOfLine(t: Bytes, i: nat)
    requires IsLine(t) && BLOCK_START <= t && Find(t[2..], BLOCK_END) == Some(i)
    ensures i + 4 < |t| && IsLine(t[i + 4..])
  {
    hide Find;
    assert BLOCK_END <= t[2..][i..];
    assert t[2..][i..][1] == t[i + 3];
    var u := t[i + 4..];
    assert u[..|u| - 1] == t[..|t| - 1][i + 4..];
  }

  /** A comment that ends inside of a line, in the line alone and with a rest behind it. */
  lemma CommentStep(t: Bytes, escaped: bool, rest: Bytes) returns (n: nat)
    requires IsLine(t) && BLOCK_START <= t && Find(t[2..], BLOCK_END).Some?
    ensures 0 < n < |t| && IsLine(t[n..])
    ensures ScanText(t, false, escaped) == ScanText(t[n..], false, false)
    ensures Strip(t + rest, false, escaped, BLOCK_START, BLOCK_END)
      == Spaces(n) + Strip(t[n..] + rest, false, false, BLOCK_START, BLOCK_END)
  {
    hide Find, Strip, IsLine;
    var i := Find(t[2..], BLOCK_END).value;
    n := i + 4;
    CommentOfLine(t, i);
    FindIsStable(t[2..], BLOCK_END, rest);
    assert (t + rest)[2..] == t[2..] + rest && (t + rest)[n..] == t[n..] + rest;
    assert (t + rest)[0] == t[0] == SLASH;
    StripComment(t + rest, escaped, BLOCK_START, BLOCK_END, i, n);
  }

  /** The rest of a line after its first byte is a line, or there is none. */
  lemma LineTail(t: Bytes)
    requires IsLine(t)
    ensures t[0] != 0 && (|t| == 1 <==> t[0] == NEWLINE) && (|t| > 1 ==> IsLine(t[1..]))
    ensures t == [t[0]] + t[1..]
  {
    if |t| > 1 {
      assert t[..|t| - 1][0] == t[0];
      var u := t[1..];
      assert u[..|u| - 1] == t[..|t| - 1][1..];
    }
  }

  lemma LineCons(c: byte, t: Bytes)
    requires IsLine(t) && c != 0 && c != NEWLINE
    ensures IsLine([c] + t)
  {
    var u := [c] + t;
    assert u[..|u| - 1] == [c] + t[..|t| - 1];
  }

  lemma SpacesBeforeLine(n: nat, t: Bytes)
    requires IsLine(t)
    ensures IsLine(Spaces(n) + t)
  {
    var u := Spaces(n) + t;
    assert u[..|u| - 1] == Spaces(n) + t[..|t| - 1];
  }

  /** The pass over a line is independent of what follows, and leaves a line of the same length. */
  lemma {:induction false} LineSplits(t: Bytes, inString: bool, escaped: bool, rest: Bytes) returns (y: Bytes)
    requires IsLine(t) && ScanText(t, inString, escaped).Some?
    ensures IsLine(y) && |y| == |t|
    ensures Strip(t + rest, inString, escaped, BLOCK_START, BLOCK_END)
      == y + Strip(rest, ScanText(t, inString, escaped).value, false, BLOCK_START, BLOCK_END)
    decreases |t|
  {
    hide Strip, ScanText, Find, IsLine, Spaces;
    LineTail(t);
    OpensComment(t);
    if Opens(t[0], t[1..], inString) {
      FindInScan(t, escaped);
      var n := CommentStep(t, escaped, rest);
      var z := LineSplits(t[n..], false, false, rest);
      y := Spaces(n) + z;
      SpacesBeforeLine(n, z);
      Regroup(Spaces(n), z, Strip(rest, ScanText(t, inString, escaped).value, false, BLOCK_START, BLOCK_END));
    } else {
      var backslash, quote := t[0] == BACKSLASH && !escaped, t[0] == QUOTE && !escaped;
      assert t + rest == [t[0]] + (t[1..] + rest);
      PeekOfLine(t, rest);
      ByteStep(t[0], t[1..] + rest, inString, escaped);
      ByteStep(t[0], t[1..], inString, escaped);
      if |t| == 1 {
        y := t;
        ScanNothing(inString);
        assert t[1..] + rest == rest && IsLine(t);
      } else {
        var z := LineSplits(t[1..], inString != quote, backslash, rest);
        y := [t[0]] + z;
        LineCons(t[0], z);
        Regroup([t[0]], z, Strip(rest, ScanText(t, inString, escaped).value, false, BLOCK_START, BLOCK_END));
      }
    }
  }

  lemma Regroup(x: Bytes, y: Bytes, z: Bytes)
    ensures x + (y + z) == x + y + z
  {
  }

  lemma ScanNothing(inString: bool)
    ensures ScanText([], inString, false) == Some(inString)
  {
  }

  /** A line that is not over decides whether its first byte opens a comment. */
  lemma PeekOfLine(t: Bytes, rest: Bytes)
    requires t != [] && (|t| == 1 ==> t[0] == NEWLINE)
    ensures forall inString :: Opens(t[0], t[1..] + rest, inString) <==> Opens(t[0], t[1..], inString)
  {
  }

  lemma FindInScan(t: Bytes, escaped: bool)
    requires BLOCK_START <= t
    ensures ScanText(t, false, escaped).Some? ==> Find(t[2..], BLOCK_END).Some?
    ensures Find(t[2..], BLOCK_END).None? ==> ScanText(t, false, escaped).None?
  {
  }

  lemma FindInEmptyComment(rest: Bytes)
    ensures Find(BLOCK_START + BLOCK_END + rest, BLOCK_END) == Some(2)
  {
    hide Find;
    var t := BLOCK_END + rest;
    var u := [STAR] + t;
    var s := [SLASH] + u;
    assert BLOCK_START + BLOCK_END + rest == s;
    assert s[1..] == u && u[1..] == t && t[0] == STAR;
    StartsWithTwo(BLOCK_END, s);
    StartsWithTwo(BLOCK_END, u);
    FindStep(s, BLOCK_END);
    FindStep(u, BLOCK_END);
    FindStep(t, BLOCK_END);
  }

  /** A comment that is still open at the end of a text ends at the first end token behind it. */
  lemma {:induction false} FindBehind(s: Bytes, rest: Bytes)
    requires Find(s, BLOCK_END) == None && (s != [] ==> s[|s| - 1] != STAR)
    ensures Find(s + (BLOCK_START + BLOCK_END + rest), BLOCK_END) == Some(|s| + 2)
  {
    hide Find;
    var after := BLOCK_START + BLOCK_END + rest;
    FindStep(s, BLOCK_END);
    FindStep(s + after, BLOCK_END);
    StartsWithTwo(BLOCK_END, s);
    StartsWithTwo(BLOCK_END, s + after);
    if s == [] {
      assert s + after == after;
      FindInEmptyComment(rest);
    } else {
      assert (s + after)[1..] == s[1..] + after;
      FindBehind(s[1..], rest);
    }
  }

  /** The pass over a line with a comment left open, up to the end of the next comment. */
  lemma {:induction false} OpenLine(t: Bytes, inString: bool, escaped: bool, rest: Bytes) returns (w: Bytes)
    requires IsLine(t) && ScanText(t, inString, escaped).None?
    ensures |w| == |t| + 4 && WithinLine(w)
    ensures Strip(t + (BLOCK_START + BLOCK_END + rest), inString, escaped, BLOCK_START, BLOCK_END)
      == w + Strip(rest, false, false, BLOCK_START, BLOCK_END)
    decreases |t|
  {
    hide Strip, ScanText, Find, IsLine, Spaces;
    var after := BLOCK_START + BLOCK_END + rest;
    LineTail(t);
    OpensComment(t);
    if Opens(t[0], t[1..], inString) && Find(t[2..], BLOCK_END).None? {
      w := Spaces(|t| + 4);
      SpacesWithinLine(|t| + 4);
      OpenComment(t, escaped, rest);
    } else if Opens(t[0], t[1..], inString) {
      var n := CommentStep(t, escaped, after);
      var z := OpenLine(t[n..], false, false, rest);
      w := Spaces(n) + z;
      SpacesWithinLine(n);
      Regroup(Spaces(n), z, Strip(rest, false, false, BLOCK_START, BLOCK_END));
    } else {
      var backslash, quote := t[0] == BACKSLASH && !escaped, t[0] == QUOTE && !escaped;
      assert t + after == [t[0]] + (t[1..] + after);
      PeekOfLine(t, after);
      ByteStep(t[0], t[1..] + after, inString, escaped);
      ByteStep(t[0], t[1..], inString, escaped);
      ScanNothing(inString != quote);
      var z := OpenLine(t[1..], inString != quote, backslash, rest);
      w := [t[0]] + z;
      Regroup([t[0]], z, Strip(rest, false, false, BLOCK_START, BLOCK_END));
    }
  }

  lemma SpacesWithinLine(n: nat)
    ensures WithinLine(Spaces(n))
  {
  }

  lemma OpenComment(t: Bytes, escaped: bool, rest: Bytes)
    requires IsLine(t) && BLOCK_START <= t && Find(t[2..], BLOCK_END).None?
    ensures Strip(t + (BLOCK_START + BLOCK_END + rest), false, escaped, BLOCK_START, BLOCK_END)
      == Spaces(|t| + 4) + Strip(rest, false, false, BLOCK_START, BLOCK_END)
  {
    hide Strip, Find, Spaces;
    var after := BLOCK_START + BLOCK_END + rest;
    var s := t + after;
    assert t[2..] != [] ==> t[2..][|t| - 3] == NEWLINE;
    FindBehind(t[2..], rest);
    assert s[2..] == t[2..] + after && s[|t| + 4..] == rest && s[0] == t[0] == SLASH;
    StripComment(s, escaped, BLOCK_START, BLOCK_END, |t|, |t| + 4);
  }

  // --- Comments count as whitespace -----------------------------------------------

  /** What may stand between two tokens: whitespace, or a comment with its two ends. */
  datatype Fill = Blanks(s: Bytes) | Block(body: Bytes) | Line(body: Bytes)

  /**
   The first pass does not know about line comments. It does no harm to one exactly when the
   body does not open a block comment with the slash before it, and the pass is outside of
   strings and comments again when the line ends.
   */
  predicate LineSafe(body: Bytes) {
    && WithinLine(body) && Peek(body) != STAR
    && ScanText(body + LINE_END, false, false) == Some(false)
  }

  /** A block comment does not contain its own end; after the first pass, any line will do. */
  ghost predicate ValidFill(f: Fill, lines: bool) {
    match f
    case Blanks(s) => AllSpace(s)
    case Block(body) => !lines && NulFree(body) && Find(body + [STAR], BLOCK_END) == None
    case Line(body) => if lines then WithinLine(body) else LineSafe(body)
  }

  function FillText(f: Fill): Bytes {
    match f
    case Blanks(s) => s
    case Block(body) => BLOCK_START + body + BLOCK_END
    case Line(body) => LINE_START + body + LINE_END
  }

  function Start(lines: bool): Bytes {
    if lines then LINE_START else BLOCK_START
  }

  function End(lines: bool): Bytes {
    if lines then LINE_END else BLOCK_END
  }

  /** A body without the end token delays its first occurrence to the end of the comment. */
  lemma {:induction false} FindAfterBody(body: Bytes, rest: Bytes)
    requires Find(body + [STAR], BLOCK_END) == None
    ensures Find(body + BLOCK_END + rest, BLOCK_END) == Some(|body|)
  {
    hide Find;
    var s, b := body + BLOCK_END + rest, body + [STAR];
    FindStep(s, BLOCK_END);
    FindStep(b, BLOCK_END);
    if body == [] {
      assert BLOCK_END <= s;
    } else {
      assert b[1..] == body[1..] + [STAR];
      assert s[1..] == body[1..] + BLOCK_END + rest;
      assert s[0] == b[0] && s[1..][0] == b[1..][0];
      StartsWithTwo(BLOCK_END, s);
      StartsWithTwo(BLOCK_END, b);
      FindAfterBody(body[1..], rest);
    }
  }

  lemma BlockIsBlanked(body: Bytes, rest: Bytes)
    requires Find(body + [STAR], BLOCK_END) == None
    ensures Strip(BLOCK_START + body + BLOCK_END + rest, false, false, BLOCK_START, BLOCK_END)
      == Spaces(|body| + 4) + Strip(rest, false, false, BLOCK_START, BLOCK_END)
  {
    hide Find, Strip, Spaces;
    var s, t := BLOCK_START + body + BLOCK_END + rest, body + BLOCK_END + rest;
    assert s == BLOCK_START + t;
    assert s[..2] == BLOCK_START && s[2..] == t && s[0] == SLASH;
    FindAfterBody(body, rest);
    assert s[|body| + 4..] == rest;
    StripComment(s, false, BLOCK_START, BLOCK_END, |body|, |body| + 4);
  }

  /** The first pass leaves a line comment in place of a line comment. */
  lemma LineSurvives(body: Bytes, rest: Bytes) returns (body': Bytes)
    requires LineSafe(body)
    ensures WithinLine(body') && |body'| == |body|
    ensures Strip(LINE_START + body + LINE_END + rest, false, false, BLOCK_START, BLOCK_END)
      == LINE_START + body' + LINE_END + Strip(rest, false, false, BLOCK_START, BLOCK_END)
  {
    hide Strip, ScanText;
    var x := body + LINE_END;
    assert x[..|x| - 1] == body;
    var y := LineSplits(x, false, false, rest);
    SlashesAreKept(x + rest);
    body' := y[..|y| - 1];
    assert y == body' + LINE_END;
    assert LINE_START + body + LINE_END + rest == LINE_START + (x + rest);
    LineAlgebra(body', Strip(rest, false, false, BLOCK_START, BLOCK_END));
  }

  lemma LineAlgebra(body: Bytes, rest: Bytes)
    ensures LINE_START + (body + LINE_END + rest) == LINE_START + body + LINE_END + rest
  {
  }

  /** The two slashes of a line comment, when no star follows. */
  lemma SlashesAreKept(rest: Bytes)
    requires Peek(rest) != STAR
    ensures Strip(LINE_START + rest, false, false, BLOCK_START, BLOCK_END)
      == LINE_START + Strip(rest, false, false, BLOCK_START, BLOCK_END)
  {
    hide Strip;
    OrdinaryIsKept(SLASH, rest, BLOCK_START, BLOCK_END);
    OrdinaryIsKept(SLASH, [SLASH] + rest, BLOCK_START, BLOCK_END);
    assert [SLASH] + ([SLASH] + rest) == LINE_START + rest;
    var u := Strip(rest, false, false, BLOCK_START, BLOCK_END);
    assert [SLASH] + ([SLASH] + u) == LINE_START + u;
  }

  lemma {:induction false} FindNewline(body: Bytes, rest: Bytes)
    requires forall i :: 0 <= i < |body| ==> body[i] != NEWLINE
    ensures Find(body + LINE_END + rest, LINE_END) == Some(|body|)
  {
    var s := body + LINE_END + rest;
    if body != [] {
      assert s[0] == body[0] && s[1..] == body[1..] + LINE_END + rest;
      FindNewline(body[1..], rest);
    }
  }

  /** The second pass blanks a line comment with its line break. */
  lemma LineIsBlanked(body: Bytes, rest: Bytes)
    requires WithinLine(body)
    ensures Strip(LINE_START + body + LINE_END + rest, false, false, LINE_START, LINE_END)
      == Spaces(|body| + 3) + Strip(rest, false, false, LINE_START, LINE_END)
  {
    hide Find, Strip, Spaces;
    var s, t := LINE_START + body + LINE_END + rest, body + LINE_END + rest;
    assert s == LINE_START + t;
    assert s[..2] == LINE_START && s[2..] == t && s[0] == SLASH;
    FindNewline(body, rest);
    assert s[|body| + 3..] == rest;
    StripComment(s, false, LINE_START, LINE_END, |body|, |body| + 3);
  }

  /** A pass erases its own comments; the first leaves lines as lines. */
  lemma FillIsErased(f: Fill, lines: bool, rest: Bytes) returns (g: Fill)
    requires ValidFill(f, lines)
    ensures ValidFill(g, true) && (lines ==> g.Blanks?)
    ensures Strip(FillText(f) + rest, false, false, Start(lines), End(lines))
      == FillText(g) + Strip(rest, false, false, Start(lines), End(lines))
  {
    hide Strip, Find, LineSafe;
    match f
    case Blanks(s) =>
      g := f;
      PlainIsKept(s, rest, Start(lines), End(lines));
    case Block(body) =>
      g := Blanks(Spaces(|body| + 4));
      BlockIsBlanked(body, rest);
    case Line(body) =>
      if lines {
        g := Blanks(Spaces(|body| + 3));
        LineIsBlanked(body, rest);
      } else {
        var body' := LineSurvives(body, rest);
        g := Line(body');
      }
  }

  function GapText(fills: seq<Fill>): Bytes {
    if fills == [] then [] else FillText(fills[0]) + GapText(fills[1..])
  }

  ghost predicate ValidGap(fills: seq<Fill>, lines: bool) {
    forall i :: 0 <= i < |fills| ==> ValidFill(fills[i], lines)
  }

  lemma {:induction false} GapIsErased(fills: seq<Fill>, lines: bool, rest: Bytes) returns (left: seq<Fill>)
    requires ValidGap(fills, lines)
    ensures ValidGap(left, true) && (lines ==> AllSpace(GapText(left)))
    ensures Strip(GapText(fills) + rest, false, false, Start(lines), End(lines))
      == GapText(left) + Strip(rest, false, false, Start(lines), End(lines))
  {
    hide Strip, FillText, ValidFill;
    var u := Strip(rest, false, false, Start(lines), End(lines));
    if fills == [] {
      left := [];
      assert GapText(fills) + rest == rest && GapText([]) + u == u;
    } else {
      var more := GapIsErased(fills[1..], lines, rest);
      var f := FillIsErased(fills[0], lines, GapText(fills[1..]) + rest);
      left := [f] + more;
      assert GapText(fills) + rest == FillText(fills[0]) + (GapText(fills[1..]) + rest);
      assert left[1..] == more;
      assert FillText(f) + (GapText(more) + u) == GapText(left) + u;
      if lines {
        BlanksAreSpace(f);
      }
    }
  }

  lemma BlanksAreSpace(f: Fill)
    requires ValidFill(f, true) && f.Blanks?
    ensures AllSpace(FillText(f))
  {
  }

  /** The tokens with commented gaps in front of them. */
  function Annotate(gaps: seq<seq<Fill>>, tokens: seq<Bytes>): Bytes
    requires |gaps| == |tokens|
  {
    if gaps == [] then [] else GapText(gaps[0]) + tokens[0] + Annotate(gaps[1..], tokens[1..])
  }

  ghost predicate ValidGaps(gaps: seq<seq<Fill>>, lines: bool) {
    forall i :: 0 <= i < |gaps| ==> ValidGap(gaps[i], lines)
  }

  /** One pass over an annotated text; after the second one the gaps are whitespace. */
  lemma {:induction false} AnnotationIsErased(gaps: seq<seq<Fill>>, lines: bool, tokens: seq<Bytes>)
    returns (left: seq<seq<Fill>>, blank: seq<Bytes>)
    requires |gaps| == |tokens| && ValidGaps(gaps, lines) && TokenShapes(tokens)
    ensures |left| == |gaps| && ValidGaps(left, true)
    ensures Strip(Annotate(gaps, tokens), false, false, Start(lines), End(lines)) == Annotate(left, tokens)
    ensures lines ==> |blank| == |gaps| && Gaps(blank) && Annotate(left, tokens) == Weave(blank, tokens)
  {
    hide Strip, GapText, ValidGap, TokenShape;
    if gaps == [] {
      left, blank := [], [];
      StripNothing(Start(lines), End(lines));
    } else {
      var more := Annotate(gaps[1..], tokens[1..]);
      var others, blanks := AnnotationIsErased(gaps[1..], lines, tokens[1..]);
      TokenIsKept(tokens[0], more, Start(lines), End(lines));
      var gap := GapIsErased(gaps[0], lines, tokens[0] + more);
      left, blank := [gap] + others, [GapText(gap)] + blanks;
      assert Annotate(gaps, tokens) == GapText(gaps[0]) + (tokens[0] + more);
      assert left[1..] == others && blank[1..] == blanks;
      assert GapText(gap) + (tokens[0] + Annotate(others, tokens[1..])) == Annotate(left, tokens);
    }
  }

  /** What a text that spells `sp` is to be read as. */
  function ReadsAs(sp: Spelling): Parse
    requires Grammatical(sp)
  {
    if Height(Denote(sp)) <= MAX_NESTING then Parsed(Denote(sp), []) else Rejected
  }

  /** Comments and whitespace, in any number between any tokens, do not change the value read. */
  lemma CommentsAreWhitespace(sp: Spelling, gaps: seq<seq<Fill>>)
    requires Grammatical(sp) && |gaps| == |Tokens(sp)| && ValidGaps(gaps, false)
    ensures ParseWithComments(Annotate(gaps, Tokens(sp))) == ReadsAs(sp)
  {
    hide ParseValue, Strip, Tokens, Grammatical, Weave, Annotate, ValidGaps, TokenShapes;
    TokensHaveShape(sp);
    var once, _ := AnnotationIsErased(gaps, false, Tokens(sp));
    var twice, blank := AnnotationIsErased(once, true, Tokens(sp));
    var w := Weave(blank, Tokens(sp));
    assert w + [] == w;
    ParseWoven(sp, blank, [], 0);
  }

  /** A block comment that is never closed only loses its start: what follows is read. */
  lemma {:induction false} UnclosedCommentIsRead(sp: Spelling, gaps: seq<Bytes>)
    requires Grammatical(sp) && |gaps| == |Tokens(sp)| && Gaps(gaps)
    requires Find(Weave(gaps, Tokens(sp)), BLOCK_END) == None
    ensures ParseWithComments(BLOCK_START + Weave(gaps, Tokens(sp))) == ReadsAs(sp)
  {
    hide ParseValue, Strip, Tokens, Grammatical, Find, AllSpace, Weave, Gaps, Spaces;
    var w := Weave(gaps, Tokens(sp));
    var s := BLOCK_START + w;
    assert s[..2] == BLOCK_START && s[2..] == w && s[0] == SLASH;
    StripAtComment(s, false, BLOCK_START, BLOCK_END);
    var wider := WidenFirst(gaps, Tokens(sp), 2);
    GrammaticalHasNoComments(sp, wider, LINE_START, LINE_END);
    assert Weave(wider, Tokens(sp)) + [] == Weave(wider, Tokens(sp));
    ParseWoven(sp, wider, [], 0);
  }

  lemma WidenFirst(gaps: seq<Bytes>, tokens: seq<Bytes>, n: nat) returns (wider: seq<Bytes>)
    requires |gaps| == |tokens| > 0 && Gaps(gaps)
    ensures |wider| == |tokens| && Gaps(wider) && Weave(wider, tokens) == Spaces(n) + Weave(gaps, tokens)
  {
    hide AllSpace, Spaces;
    wider := [Spaces(n) + gaps[0]] + gaps[1..];
    SpacesBeforeSpace(n, gaps[0]);
    assert wider[1..] == gaps[1..];
    var tail := Weave(gaps[1..], tokens[1..]);
    assert Spaces(n) + gaps[0] + tokens[0] + tail == Spaces(n) + (gaps[0] + tokens[0] + tail);
  }

  lemma SpacesBeforeSpace(n: nat, s: Bytes)
    requires AllSpace(s)
    ensures AllSpace(Spaces(n) + s)
  {
  }

  // --- The exact condition on line comments ---------------------------------------

  /** The gaps hold whitespace, harmless comments and line comments with this body. */
  ghost predicate GapsWith(gaps: seq<seq<Fill>>, body: Bytes) {
    forall i, j :: 0 <= i < |gaps| && 0 <= j < |gaps[i]| ==> gaps[i][j] == Line(body) || ValidFill(gaps[i][j], false)
  }

  /** Wherever it stands among them, a line comment with this body does not change the value read. */
  ghost predicate Harmless(body: Bytes) {
    forall sp, gaps ::
      Grammatical(sp) && |gaps| == |Tokens(sp)| && GapsWith(gaps, body)
      ==> ParseWithComments(Annotate(gaps, Tokens(sp))) == ReadsAs(sp)
  }

  /** The array of 1, with a line comment and an empty block comment on the next line in front of the 1. */
  function Context(body: Bytes): Bytes {
    [LBRACKET] + (LINE_START + (body + LINE_END + (BLOCK_START + BLOCK_END + [0x31, NEWLINE, RBRACKET])))
  }

  const ONE: Spelling := List([Decimal(1)])

  lemma ContextIsAnnotated(body: Bytes) returns (gaps: seq<seq<Fill>>)
    ensures Grammatical(ONE) && ReadsAs(ONE) == Parsed(Arr([Num(1.0)]), [])
    ensures |gaps| == |Tokens(ONE)| && GapsWith(gaps, body)
    ensures Annotate(gaps, Tokens(ONE)) == Context(body)
  {
    hide LineSafe, ParseValue;
    var items := [Decimal(1)];
    assert items[1..] == [];
    assert Denote(ONE) == Arr([Num(1.0)]);
    assert Height(Denote(ONE)) == 1;
    var tokens := Tokens(ONE);
    assert tokens == [[LBRACKET], [0x31], [RBRACKET]] by {
      assert DecimalText(1) == [0x31];
      assert ItemTokens(items) == [[0x31]];
    }
    var fills := [Line(body), Block([])];
    gaps := [[], fills, [Blanks(LINE_END)]];
    EmptyBlock();
    GapOfTwo(fills);
    GapOfOne(Blanks(LINE_END));
    assert gaps[1..] == [fills, [Blanks(LINE_END)]] && gaps[1..][1..] == [[Blanks(LINE_END)]];
    assert tokens[1..] == [[0x31], [RBRACKET]] && tokens[1..][1..] == [[RBRACKET]];
    AnnotateThree(gaps, tokens);
    ContextAlgebra(body);
  }

  lemma AnnotateThree(gaps: seq<seq<Fill>>, tokens: seq<Bytes>)
    requires |gaps| == |tokens| == 3
    ensures Annotate(gaps, tokens)
      == GapText(gaps[0]) + tokens[0] + (GapText(gaps[1]) + tokens[1] + (GapText(gaps[2]) + tokens[2]))
  {
    hide GapText;
    var g, t := gaps[1..][1..], tokens[1..][1..];
    assert Annotate(g[1..], t[1..]) == [];
    assert GapText(g[0]) + t[0] + [] == GapText(g[0]) + t[0];
    assert Annotate(g, t) == GapText(gaps[2]) + tokens[2];
    assert Annotate(gaps[1..], tokens[1..]) == GapText(gaps[1]) + tokens[1] + Annotate(g, t);
  }

  lemma ContextAlgebra(body: Bytes)
    ensures [] + [LBRACKET]
      + ((LINE_START + body + LINE_END + (BLOCK_START + [] + BLOCK_END)) + [0x31] + (LINE_END + [RBRACKET]))
      == Context(body)
  {
    var after := BLOCK_START + BLOCK_END + [0x31, NEWLINE, RBRACKET];
    assert BLOCK_START + [] + BLOCK_END + [0x31] + (LINE_END + [RBRACKET]) == after;
    LineAlgebra(body, after);
  }

  lemma EmptyBlock()
    ensures ValidFill(Block([]), false) && ValidFill(Blanks(LINE_END), false)
  {
    assert [] + [STAR] == [STAR] && [STAR][1..] == [];
  }

  lemma {:induction false} GapOfTwo(fills: seq<Fill>)
    requires |fills| == 2
    ensures GapText(fills) == FillText(fills[0]) + FillText(fills[1])
  {
    assert fills[1..][0] == fills[1] && fills[1..][1..] == [];
    assert GapText([]) == [];
  }

  lemma GapOfOne(f: Fill)
    ensures GapText([f]) == FillText(f)
  {
    assert [f][1..] == [];
    assert GapText([]) == [];
  }

  /** A slash between the bracket and the element is never read. */
  lemma SlashIsRejected(gap: Bytes, rest: Bytes)
    requires AllSpace(gap)
    ensures ParseValue([LBRACKET] + (gap + ([SLASH] + rest)), 0) == Rejected
  {
    hide ParseItems;
    SkipSpaceOverGap(gap, [SLASH] + rest);
    UnfoldArray(gap + ([SLASH] + rest), 0);
    NoValueAtSlash(rest);
    ItemsRejected([SLASH] + rest, 1, []);
  }

  lemma NoValueAtSlash(rest: Bytes)
    ensures ParseValue([SLASH] + rest, 1) == Rejected
    ensures SkipSpace([SLASH] + rest) == [SLASH] + rest
  {
  }

  /** A pass steps over the opening bracket. */
  lemma BracketIsKept(rest: Bytes, start: Bytes, end: Bytes)
    requires |start| == 2 && start[0] == SLASH && end != []
    ensures Strip([LBRACKET] + rest, false, false, start, end) == [LBRACKET] + Strip(rest, false, false, start, end)
  {
    hide Strip;
    OrdinaryIsKept(LBRACKET, rest, start, end);
  }

  lemma SpacesAreSpace(n: nat)
    ensures AllSpace(Spaces(n))
  {
  }

  /** A body that starts with a star: the first pass takes the second slash for a comment's. */
  lemma StarContext(body: Bytes)
    requires Peek(body) == STAR
    ensures ParseWithComments(Context(body)) == Rejected
  {
    hide Strip, ParseValue, Spaces;
    var rest := body + LINE_END + (BLOCK_START + BLOCK_END + [0x31, NEWLINE, RBRACKET]);
    var s := [SLASH] + rest;
    assert s[..2] == BLOCK_START && LINE_START + rest == [SLASH] + s;
    BracketIsKept([SLASH] + s, BLOCK_START, BLOCK_END);
    OrdinaryIsKept(SLASH, s, BLOCK_START, BLOCK_END);
    StripAtComment(s, false, BLOCK_START, BLOCK_END);
    var u := Strip(s, false, false, BLOCK_START, BLOCK_END);
    assert u[0] == SPACE by {
      SpacesStart(s);
    }
    BracketIsKept([SLASH] + u, LINE_START, LINE_END);
    OrdinaryIsKept(SLASH, u, LINE_START, LINE_END);
    var v := Strip(u, false, false, LINE_START, LINE_END);
    assert [] + ([SLASH] + v) == [SLASH] + v;
    SlashIsRejected([], v);
  }

  lemma SpacesStart(s: Bytes)
    requires BLOCK_START <= s
    ensures |Strip(s, false, false, BLOCK_START, BLOCK_END)| > 0
    ensures Strip(s, false, false, BLOCK_START, BLOCK_END)[0] == SPACE
  {
    hide Strip;
    assert s[0] == SLASH;
    StripAtComment(s, false, BLOCK_START, BLOCK_END);
  }

  /** The first pass on the context, when the body starts with no star. */
  lemma FirstPass(body: Bytes)
    requires Peek(body) != STAR
    ensures
      var rest := body + LINE_END + (BLOCK_START + BLOCK_END + [0x31, NEWLINE, RBRACKET]);
      Strip(Context(body), false, false, BLOCK_START, BLOCK_END)
      == [LBRACKET] + (LINE_START + Strip(rest, false, false, BLOCK_START, BLOCK_END))
  {
    hide Strip;
    var rest := body + LINE_END + (BLOCK_START + BLOCK_END + [0x31, NEWLINE, RBRACKET]);
    BracketIsKept(LINE_START + rest, BLOCK_START, BLOCK_END);
    SlashesAreKept(rest);
  }

  /** The second pass, on the bracket and a line comment. */
  lemma SecondPass(body: Bytes, rest: Bytes)
    requires WithinLine(body)
    ensures Strip([LBRACKET] + (LINE_START + (body + LINE_END + rest)), false, false, LINE_START, LINE_END)
      == [LBRACKET] + (Spaces(|body| + 3) + Strip(rest, false, false, LINE_START, LINE_END))
  {
    hide Strip, Spaces;
    LineAlgebra(body, rest);
    BracketIsKept(LINE_START + (body + LINE_END + rest), LINE_START, LINE_END);
    LineIsBlanked(body, rest);
  }

  /** A string left open: the first pass misses the block comment on the next line. */
  lemma StringContext(body: Bytes)
    requires WithinLine(body) && Peek(body) != STAR && ScanText(body + LINE_END, false, false) == Some(true)
    ensures ParseWithComments(Context(body)) == Rejected
  {
    hide Strip, ParseValue, ScanText, Spaces;
    var after := BLOCK_START + BLOCK_END + [0x31, NEWLINE, RBRACKET];
    var x := body + LINE_END;
    assert x[..|x| - 1] == body;
    FirstPass(body);
    var y := LineSplits(x, false, false, after);
    InsideIsKept(after, [], BLOCK_START, BLOCK_END);
    StripNothingInside();
    assert after + [] == after;
    var body' := y[..|y| - 1];
    assert y == body' + LINE_END;
    SecondPass(body', after);
    var tail := [STAR, STAR, SLASH, 0x31, NEWLINE, RBRACKET];
    assert after == [SLASH] + tail;
    OrdinaryIsKept(SLASH, tail, LINE_START, LINE_END);
    SpacesAreSpace(|body'| + 3);
    SlashIsRejected(Spaces(|body'| + 3), Strip(tail, false, false, LINE_START, LINE_END));
  }

  lemma StripNothingInside()
    ensures Strip([], true, false, BLOCK_START, BLOCK_END) == []
  {
  }

  /** A comment left open: it swallows the line break, and the second pass swallows the 1. */
  lemma CommentContext(body: Bytes)
    requires WithinLine(body) && Peek(body) != STAR && ScanText(body + LINE_END, false, false) == None
    ensures ParseWithComments(Context(body)) == Parsed(Arr([]), [])
  {
    hide Strip, ParseValue, ScanText, Spaces;
    var rest := [0x31, NEWLINE, RBRACKET];
    var x := body + LINE_END;
    assert x[..|x| - 1] == body;
    FirstPass(body);
    var w := OpenLine(x, false, false, rest);
    PlainIsKept(rest, [], BLOCK_START, BLOCK_END);
    StripNothing(BLOCK_START, BLOCK_END);
    assert rest + [] == rest;
    var body' := w + [0x31];
    assert w + rest == body' + LINE_END + [RBRACKET];
    SecondPass(body', [RBRACKET]);
    PlainIsKept([RBRACKET], [], LINE_START, LINE_END);
    StripNothing(LINE_START, LINE_END);
    assert [RBRACKET] + [] == [RBRACKET];
    SpacesAreSpace(|body'| + 3);
    EmptyArrayIsRead(Spaces(|body'| + 3));
  }

  lemma EmptyArrayIsRead(gap: Bytes)
    requires AllSpace(gap)
    ensures ParseValue([LBRACKET] + (gap + [RBRACKET]), 0) == Parsed(Arr([]), [])
  {
    hide ParseValue;
    UnfoldArray(gap + [RBRACKET], 0);
    SkipSpaceOverGap(gap, [RBRACKET]);
    assert SkipSpace([RBRACKET]) == [RBRACKET];
  }

  /** A body that is not safe makes the context read as something else. */
  lemma UnsafeContext(body: Bytes)
    requires WithinLine(body) && !LineSafe(body)
    ensures ParseWithComments(Context(body)) != Parsed(Arr([Num(1.0)]), [])
  {
    hide ScanText, ParseWithComments, Context;
    if Peek(body) == STAR {
      StarContext(body);
    } else if ScanText(body + LINE_END, false, false) == None {
      CommentContext(body);
    } else {
      assert ScanText(body + LINE_END, false, false).value;
      StringContext(body);
    }
  }

  /** A line comment counts as whitespace in every text exactly when its body is safe. */
  lemma HarmlessIffLineSafe(body: Bytes)
    requires WithinLine(body)
    ensures Harmless(body) <==> LineSafe(body)
  {
    hide ParseWithComments, Annotate, Tokens, Grammatical, ReadsAs, LineSafe, Context;
    if LineSafe(body) {
      forall sp, gaps | Grammatical(sp) && |gaps| == |Tokens(sp)| && GapsWith(gaps, body)
        ensures ParseWithComments(Annotate(gaps, Tokens(sp))) == ReadsAs(sp)
      {
        CommentsAreWhitespace(sp, gaps);
      }
    } else {
      UnsafeContext(body);
      var gaps := ContextIsAnnotated(body);
    }
  }

  /** A quoted word and an escaped quote in a line comment are harmless, a single quote is not. */
  lemma QuotesInLineComments()
    ensures LineSafe([QUOTE, 0x61, QUOTE]) && !LineSafe([QUOTE]) && LineSafe([BACKSLASH, QUOTE])
    ensures ParseWithComments(Context([QUOTE])) == Rejected
  {
    hide ParseWithComments, Context;
    var a, b := [QUOTE, 0x61, QUOTE] + LINE_END, [QUOTE] + LINE_END;
    assert a[1..] == [0x61, QUOTE, NEWLINE] && a[1..][1..] == [QUOTE, NEWLINE];
    assert a[1..][1..][1..] == [NEWLINE] && [NEWLINE][1..] == [];
    assert b[1..] == [NEWLINE];
    var c := [BACKSLASH, QUOTE] + LINE_END;
    assert c[1..] == [QUOTE, NEWLINE] && c[1..][1..] == [NEWLINE];
    assert ScanText(c, false, false) == ScanText(c[1..], false, true);
    NoStart(BLOCK_START, c[1..]);
    assert ScanText(c[1..], false, true) == ScanText(c[1..][1..], false, false);
    assert ScanText([NEWLINE], false, false) == Some(false) && ScanText([NEWLINE], true, false) == Some(true);
    assert ScanText(a, false, false) == ScanText(a[1..], true, false) == ScanText(a[1..][1..], true, false);
    assert ScanText(a, false, false) == Some(false) && ScanText(b, false, false) == Some(true);
    StringContext([QUOTE]);
  }
}
