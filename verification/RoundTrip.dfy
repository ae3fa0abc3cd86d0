/**
 Parsing undoes printing. The main lemma reads any spelling of a value, with arbitrary
 whitespace between its tokens, in any context, at any nesting.
 */
module RoundTrip {
  import opened Bytes
  import opened Json
  import opened Utf8
  import opened Strings
  import opened Glyphs
  import opened Numbers
  import opened Parser
  import opened Layout
  import opened Style

  lemma SkipSpaceIdempotent(s: Bytes)
    ensures SkipSpace(SkipSpace(s)) == SkipSpace(s)
  {
  }

  /** Leading whitespace does not change what a value parses to. */
  lemma ParseOverGap(gap: Bytes, s: Bytes, nesting: nat)
    requires AllSpace(gap)
    ensures ParseValue(gap + s, nesting) == ParseValue(s, nesting)
    ensures ParseValue(SkipSpace(s), nesting) == ParseValue(s, nesting)
  {
    SkipSpaceOverGap(gap, s);
    SkipSpaceIdempotent(s);
  }

  /** A number followed by whitespace or a closing mark ends there. */
  lemma DelimiterEnds(n: int, gap: Bytes, c: byte, t: Bytes)
    requires AllSpace(gap) && c in {COMMA, RBRACKET, RBRACE}
    ensures !Extends(n, gap + [c] + t)
  {
    var s := gap + [c] + t;
    assert s[0] == if gap == [] then c else gap[0];
  }

  lemma SkipToMark(gap: Bytes, c: byte, t: Bytes)
    requires AllSpace(gap) && !IsSpace(c)
    ensures SkipSpace(gap + [c] + t) == [c] + t
  {
    assert gap + [c] + t == gap + ([c] + t);
    SkipSpaceOverGap(gap, [c] + t);
  }

  lemma ParseKeyword(v: Json, rest: Bytes)
    requires v.Null? || v.Bool?
    ensures ParseValue(Tokens(Keyword(v))[0] + rest, 0) == Parsed(v, rest)
  {
    var t := Tokens(Keyword(v))[0];
    var s := t + rest;
    assert s[..|t|] == t && s[|t|..] == rest;
    assert s[0] == t[0];
    assert SkipSpace(s) == s;
    if v == Bool(false) {
      assert !(TRUE <= s);
    }
  }

  lemma {:induction false} ParseNumberText(n: int, rest: Bytes)
    requires -MAX_EXACT <= n <= MAX_EXACT
    ensures ParseValue(DecimalText(n) + rest, 0) == Parsed(Num(n as real), rest) <==> !Extends(n, rest)
  {
    var s := DecimalText(n) + rest;
    assert s[0] == DecimalText(n)[0];
    DispatchNumber(s);
    NumberRoundTrip(n, rest);
  }

  lemma DispatchNumber(s: Bytes)
    requires s != [] && (s[0] == MINUS || IsDigit(s[0]))
    ensures ParseValue(s, 0) == ParseNumber(s)
  {
    hide ReadNumber;
    assert SkipSpace(s) == s;
  }

  lemma ParseLiteral(gs: seq<Glyph>, rest: Bytes)
    requires AllLegal(gs)
    ensures ParseValue(StringToken(gs) + rest, 0) == Parsed(Str(StringValue(gs)), rest)
  {
    hide GetQuoted, SpellAll, StringValue, AllLegal;
    var s := StringToken(gs) + rest;
    assert s[0] == QUOTE;
    assert SkipSpace(s) == s;
    StringTokenReads(gs, rest);
  }

  /** A number ends where its token ends. */
  predicate Ends(v: Json, rest: Bytes) {
    v.Num? ==> !Extends(v.x.Floor, rest)
  }

  predicate Scalar(sp: Spelling) {
    !sp.List? && !sp.Record?
  }

  lemma ParseScalar(sp: Spelling, rest: Bytes)
    requires Grammatical(sp) && Scalar(sp) && Ends(Denote(sp), rest)
    ensures ParseValue(Tokens(sp)[0] + rest, 0) == Parsed(Denote(sp), rest)
  {
    hide ParseValue, Extends;
    match sp
    case Keyword(v) => ParseKeyword(v, rest);
    case Decimal(n) =>
      assert (n as real).Floor == n;
      ParseNumberText(n, rest);
    case Literal(gs) => ParseLiteral(gs, rest);
  }

  /** A scalar takes no nesting: the level only decides whether it is read at all. */
  lemma ScalarAtAnyLevel(s: Bytes, nesting: nat)
    requires Peek(SkipSpace(s)) != LBRACE && Peek(SkipSpace(s)) != LBRACKET
    ensures ParseValue(s, nesting) == if nesting <= MAX_NESTING then ParseValue(s, 0) else Rejected
  {
  }

  /** The first byte of a spelling. */
  lemma TokenStart(sp: Spelling, rest: Bytes)
    requires Grammatical(sp)
    ensures Tokens(sp)[0] != []
    ensures var c := Tokens(sp)[0][0];
      && c !in {RBRACKET, RBRACE, COMMA} && !IsSpace(c)
      && (Scalar(sp) ==> c !in {LBRACE, LBRACKET})
    ensures SkipSpace(Tokens(sp)[0] + rest) == Tokens(sp)[0] + rest
  {
    hide SpellAll, AllLegal;
    var t := Tokens(sp)[0];
    assert (t + rest)[0] == t[0];
  }

  /**
   Any spelling of a value, with any whitespace between its tokens and followed by any text
   that does not continue a top-level number, parses to the value and leaves that text
   exactly when the value fits under the nesting limit, and is rejected otherwise.
   */
  lemma {:induction false} ParseWoven(sp: Spelling, gaps: seq<Bytes>, rest: Bytes, nesting: nat)
    requires Grammatical(sp) && |gaps| == |Tokens(sp)| && Gaps(gaps) && Ends(Denote(sp), rest)
    ensures ParseValue(Weave(gaps, Tokens(sp)) + rest, nesting) ==
      if nesting + Height(Denote(sp)) <= MAX_NESTING then Parsed(Denote(sp), rest) else Rejected
    decreases sp, 1
  {
    match sp
    case List(items) => ParseWovenArray(items, gaps, rest, nesting);
    case Record(fields) => ParseWovenObject(fields, gaps, rest, nesting);
    case _ => ParseWovenScalar(sp, gaps, rest, nesting);
  }

  lemma ParseWovenScalar(sp: Spelling, gaps: seq<Bytes>, rest: Bytes, nesting: nat)
    requires Grammatical(sp) && Scalar(sp) && |gaps| == 1 && Gaps(gaps) && Ends(Denote(sp), rest)
    ensures ParseValue(Weave(gaps, Tokens(sp)) + rest, nesting) ==
      if nesting <= MAX_NESTING then Parsed(Denote(sp), rest) else Rejected
    ensures Height(Denote(sp)) == 0
  {
    hide ParseValue, SkipSpace, Ends;
    var t := Tokens(sp)[0];
    assert Tokens(sp) == [t];
    WeaveOne(gaps, t);
    assert Weave(gaps, [t]) + rest == gaps[0] + (t + rest);
    ParseOverGap(gaps[0], t + rest, nesting);
    ParseScalar(sp, rest);
    TokenStart(sp, rest);
    ScalarAtAnyLevel(t + rest, nesting);
  }

  lemma UnfoldArray(body: Bytes, nesting: nat)
    ensures ParseValue([LBRACKET] + body, nesting) ==
      if nesting > MAX_NESTING then Rejected
      else if Peek(SkipSpace(body)) == RBRACKET then Parsed(Arr([]), SkipSpace(body)[1..])
      else ParseItems(SkipSpace(body), nesting + 1, [])
  {
    hide ReadNumber, GetQuoted, ParseItems, ParseMembers;
    assert ([LBRACKET] + body)[1..] == body;
  }

  lemma UnfoldObject(body: Bytes, nesting: nat)
    ensures ParseValue([LBRACE] + body, nesting) ==
      if nesting > MAX_NESTING then Rejected
      else if Peek(SkipSpace(body)) == RBRACE then Parsed(Obj([]), SkipSpace(body)[1..])
      else ParseMembers(SkipSpace(body), nesting + 1, [])
  {
    hide ReadNumber, GetQuoted, ParseItems, ParseMembers;
    assert ([LBRACE] + body)[1..] == body;
  }

  /** Peels the brackets off a woven container. */
  lemma {:induction false} WeaveBracketed(gaps: seq<Bytes>, open: byte, tokens: seq<Bytes>, close: byte, rest: Bytes)
    requires |gaps| == |tokens| + 2 && Gaps(gaps)
    ensures Weave(gaps, [[open]] + tokens + [[close]]) + rest
      == gaps[0] + ([open] + (Weave(gaps[1..|gaps| - 1], tokens) + (gaps[|gaps| - 1] + [close] + rest)))
    ensures Gaps(gaps[1..|gaps| - 1])
  {
    var inner, n := tokens + [[close]], |gaps| - 1;
    var all := [[open]] + tokens + [[close]];
    assert all[0] == [open] && all[1..] == inner;
    assert gaps[1..][..|tokens|] == gaps[1..n] && gaps[1..][|tokens|..] == [gaps[n]];
    WeaveSplit(gaps[1..], tokens, [[close]]);
    WeaveOne([gaps[n]], [close]);
    BracketAlgebra(gaps[0], [open], Weave(gaps[1..n], tokens), gaps[n], [close], rest);
  }

  lemma BracketAlgebra(a: Bytes, o: Bytes, w: Bytes, l: Bytes, c: Bytes, rest: Bytes)
    ensures a + o + (w + (l + c)) + rest == a + (o + (w + (l + c + rest)))
  {
    assert w + (l + c) + rest == w + (l + c + rest);
  }

  lemma {:induction false} ParseWovenArray(items: seq<Spelling>, gaps: seq<Bytes>, rest: Bytes, nesting: nat)
    requires GrammaticalItems(items) && |gaps| == |Tokens(List(items))| && Gaps(gaps)
    ensures ParseValue(Weave(gaps, Tokens(List(items))) + rest, nesting) ==
      if nesting + ItemsHeight(DenoteItems(items)) <= MAX_NESTING then Parsed(Arr(DenoteItems(items)), rest)
      else Rejected
    decreases items, 1
  {
    hide ParseValue, ParseItems, Grammatical, SkipSpace, AllSpace;
    var n := |gaps| - 1;
    var tail := gaps[n] + [RBRACKET] + rest;
    var body := Weave(gaps[1..n], ItemTokens(items)) + tail;
    WeaveBracketed(gaps, LBRACKET, ItemTokens(items), RBRACKET, rest);
    ParseOverGap(gaps[0], [LBRACKET] + body, nesting);
    UnfoldArray(body, nesting);
    if items == [] {
      assert body == tail;
      SkipToMark(gaps[n], RBRACKET, rest);
    } else {
      ParseWovenItems(items, gaps[1..n], gaps[n], rest, nesting + 1, []);
      FirstTokenMark(items, gaps[1..n], tail);
      assert [] + DenoteItems(items) == DenoteItems(items);
    }
  }

  /** The first token of an element is no closing bracket. */
  lemma FirstTokenMark(items: seq<Spelling>, gaps: seq<Bytes>, rest: Bytes)
    requires items != [] && GrammaticalItems(items) && |gaps| == |ItemTokens(items)| && Gaps(gaps)
    ensures Peek(SkipSpace(Weave(gaps, ItemTokens(items)) + rest)) != RBRACKET
  {
    hide SkipSpace, Tokens, Grammatical;
    var t := ItemTokens(items);
    assert t[0] == Tokens(items[0])[0];
    var more := Weave(gaps[1..], t[1..]) + rest;
    assert Weave(gaps, t) + rest == gaps[0] + (t[0] + more);
    SkipSpaceOverGap(gaps[0], t[0] + more);
    TokenStart(items[0], more);
  }

  lemma ItemsRejected(s: Bytes, nesting: nat, acc: seq<Json>)
    requires ParseValue(s, nesting) == Rejected
    ensures ParseItems(s, nesting, acc) == Rejected
  {
  }

  lemma ItemsLast(s: Bytes, nesting: nat, acc: seq<Json>, v: Json, gap: Bytes, rest: Bytes)
    requires AllSpace(gap) && ParseValue(s, nesting) == Parsed(v, gap + [RBRACKET] + rest)
    ensures ParseItems(s, nesting, acc) == Parsed(Arr(acc + [v]), rest)
  {
    SkipToMark(gap, RBRACKET, rest);
  }

  lemma ItemsMore(s: Bytes, nesting: nat, acc: seq<Json>, v: Json, gap: Bytes, next: Bytes)
    requires AllSpace(gap) && ParseValue(s, nesting) == Parsed(v, gap + [COMMA] + next)
    ensures ParseItems(s, nesting, acc) == ParseItems(SkipSpace(next), nesting, acc + [v])
  {
    SkipToMark(gap, COMMA, next);
    assert ([COMMA] + next)[1..] == next;
  }

  /** The spelling of one element, and of what follows it after a comma if it is not the last. */
  lemma SplitElement(
    gaps: seq<Bytes>, t: seq<Bytes>, remaining: nat, others: seq<Bytes>, end: Bytes)
    returns (g: seq<Bytes>, gap: Bytes, h: seq<Bytes>)
    requires remaining == 1 ==> others == []
    requires remaining > 0 && Gaps(gaps) && |gaps| == |t + Separator(remaining) + others|
    ensures |g| == |t| && Gaps(g)
    ensures remaining == 1 ==>
      Weave(gaps, t + Separator(remaining) + others) + end == Weave(g, t) + end
    ensures remaining > 1 ==>
      && |h| == |others| && Gaps(h) && AllSpace(gap)
      && Weave(gaps, t + Separator(remaining) + others) + end
         == Weave(g, t) + (gap + [COMMA] + (Weave(h, others) + end))
  {
    var after := Separator(remaining) + others;
    assert t + Separator(remaining) + others == t + after;
    WeaveSplit(gaps, t, after);
    g, gap, h := gaps[..|t|], [], [];
    var more := gaps[|t|..];
    if remaining == 1 {
      assert after == [] && Weave(more, after) == [];
      assert Weave(g, t) + [] == Weave(g, t);
    } else {
      gap, h := more[0], more[1..];
      assert after[0] == [COMMA] && after[1..] == others;
      assert Weave(g, t) + Weave(more, after) + end == Weave(g, t) + (gap + [COMMA] + (Weave(h, others) + end));
    }
  }

  lemma {:induction false} ParseWovenItems(
    items: seq<Spelling>, gaps: seq<Bytes>, gap: Bytes, rest: Bytes, nesting: nat, acc: seq<Json>)
    requires items != [] && GrammaticalItems(items)
    requires |gaps| == |ItemTokens(items)| && Gaps(gaps) && AllSpace(gap) && nesting > 0
    ensures ParseItems(SkipSpace(Weave(gaps, ItemTokens(items)) + (gap + [RBRACKET] + rest)), nesting, acc) ==
      if nesting - 1 + ItemsHeight(DenoteItems(items)) <= MAX_NESTING
      then Parsed(Arr(acc + DenoteItems(items)), rest) else Rejected
    decreases items, 0
  {
    hide ParseValue, ParseItems, Grammatical, SkipSpace, AllSpace, Weave, Tokens, Extends, Denote, Gaps;
    var v, end := Denote(items[0]), gap + [RBRACKET] + rest;
    var vs := DenoteItems(items);
    assert vs[0] == v && vs[1..] == DenoteItems(items[1..]);
    var g, comma, h := SplitElement(gaps, Tokens(items[0]), |items|, ItemTokens(items[1..]), end);
    var s := Weave(gaps, ItemTokens(items)) + end;
    ParseOverGap([], s, nesting);
    var n := if v.Num? then v.x.Floor else 0;
    if |items| == 1 {
      DelimiterEnds(n, gap, RBRACKET, rest);
      ParseWoven(items[0], g, end, nesting);
      if nesting + Height(v) <= MAX_NESTING {
        ItemsLast(SkipSpace(s), nesting, acc, v, gap, rest);
      } else {
        ItemsRejected(SkipSpace(s), nesting, acc);
      }
      assert items[1..] == [] && acc + vs == acc + [v];
    } else {
      var next := Weave(h, ItemTokens(items[1..])) + end;
      DelimiterEnds(n, comma, COMMA, next);
      ParseWoven(items[0], g, comma + [COMMA] + next, nesting);
      if nesting + Height(v) <= MAX_NESTING {
        ItemsMore(SkipSpace(s), nesting, acc, v, comma, next);
        ParseWovenItems(items[1..], h, gap, rest, nesting, acc + [v]);
        assert acc + [v] + vs[1..] == acc + vs;
      } else {
        ItemsRejected(SkipSpace(s), nesting, acc);
      }
    }
  }

  lemma {:induction false} ParseWovenObject(fields: seq<Field>, gaps: seq<Bytes>, rest: Bytes, nesting: nat)
    requires Grammatical(Record(fields)) && |gaps| == |Tokens(Record(fields))| && Gaps(gaps)
    ensures ParseValue(Weave(gaps, Tokens(Record(fields))) + rest, nesting) ==
      if nesting + MembersHeight(DenoteFields(fields)) <= MAX_NESTING then Parsed(Obj(DenoteFields(fields)), rest)
      else Rejected
    decreases fields, 1
  {
    hide ParseValue, ParseMembers, SkipSpace, AllSpace, StringToken, StringValue, AllLegal;
    var n := |gaps| - 1;
    var tail := gaps[n] + [RBRACE] + rest;
    var body := Weave(gaps[1..n], FieldTokens(fields)) + tail;
    WeaveBracketed(gaps, LBRACE, FieldTokens(fields), RBRACE, rest);
    ParseOverGap(gaps[0], [LBRACE] + body, nesting);
    UnfoldObject(body, nesting);
    if fields == [] {
      assert body == tail;
      SkipToMark(gaps[n], RBRACE, rest);
    } else {
      DistinctNamesIff(fields);
      assert [] + DenoteFields(fields) == DenoteFields(fields);
      ParseWovenMembers(fields, gaps[1..n], gaps[n], rest, nesting + 1, []);
      MemberStart(fields, gaps[1..n], tail);
    }
  }

  /** A member starts with its quoted name. */
  lemma MemberStart(fields: seq<Field>, gaps: seq<Bytes>, rest: Bytes)
    requires fields != [] && |gaps| == |FieldTokens(fields)| && Gaps(gaps)
    ensures
      var name := StringToken(fields[0].name);
      SkipSpace(Weave(gaps, FieldTokens(fields)) + rest)
      == name + (gaps[1] + [COLON] + (Weave(gaps[2..], FieldTokens(fields)[2..]) + rest))
    ensures Peek(SkipSpace(Weave(gaps, FieldTokens(fields)) + rest)) == QUOTE
  {
    hide SpellAll, Tokens;
    var t := FieldTokens(fields);
    var name := StringToken(fields[0].name);
    assert t[0] == name && t[1] == [COLON];
    assert gaps[1..][1..] == gaps[2..] && t[1..][1..] == t[2..];
    var more := gaps[1] + [COLON] + (Weave(gaps[2..], t[2..]) + rest);
    assert Weave(gaps, t) == gaps[0] + name + (gaps[1] + [COLON] + Weave(gaps[2..], t[2..]));
    assert Weave(gaps, t) + rest == gaps[0] + (name + more);
    SkipSpaceOverGap(gaps[0], name + more);
  }

  /** The loop of `parse_object_value` up to its call for the value. */
  predicate AtMember(s: Bytes, name: Bytes, gap: Bytes, value: Bytes) {
    AllSpace(gap) && GetQuoted(s) == Some(Read(name, gap + [COLON] + value))
  }

  lemma MembersRejected(
    s: Bytes, nesting: nat, acc: seq<Member>, name: Bytes, gap: Bytes, value: Bytes)
    requires AtMember(s, name, gap, value) && ParseValue(value, nesting) == Rejected
    ensures ParseMembers(s, nesting, acc) == Rejected
  {
    SkipToMark(gap, COLON, value);
    assert ([COLON] + value)[1..] == value;
  }

  lemma MembersLast(
    s: Bytes, nesting: nat, acc: seq<Member>, name: Bytes, gap: Bytes, value: Bytes, v: Json, gap': Bytes, rest: Bytes)
    requires AtMember(s, name, gap, value) && AllSpace(gap') && !HasName(acc, name)
    requires ParseValue(value, nesting) == Parsed(v, gap' + [RBRACE] + rest)
    ensures ParseMembers(s, nesting, acc) == Parsed(Obj(acc + [Member(name, v)]), rest)
  {
    SkipToMark(gap, COLON, value);
    assert ([COLON] + value)[1..] == value;
    SkipToMark(gap', RBRACE, rest);
  }

  lemma {:induction false} MembersMore(
    s: Bytes, nesting: nat, acc: seq<Member>, name: Bytes, gap: Bytes, value: Bytes, v: Json, gap': Bytes, next: Bytes)
    requires AtMember(s, name, gap, value) && AllSpace(gap') && !HasName(acc, name)
    requires ParseValue(value, nesting) == Parsed(v, gap' + [COMMA] + next)
    ensures ParseMembers(s, nesting, acc) == ParseMembers(SkipSpace(next), nesting, acc + [Member(name, v)])
  {
    SkipToMark(gap, COLON, value);
    assert ([COLON] + value)[1..] == value;
    SkipToMark(gap', COMMA, next);
    assert ([COMMA] + next)[1..] == next;
  }

  /** The spelling of one member: its name, its value, and what follows after a comma. */
  lemma SplitMember(fields: seq<Field>, gaps: seq<Bytes>, end: Bytes)
    returns (value: Bytes, g: seq<Bytes>, comma: Bytes, h: seq<Bytes>)
    requires fields != [] && AllLegal(fields[0].name)
    requires |gaps| == |FieldTokens(fields)| && Gaps(gaps)
    ensures |gaps| >= 2
    ensures AtMember(SkipSpace(Weave(gaps, FieldTokens(fields)) + end), StringValue(fields[0].name), gaps[1], value)
    ensures |g| == |Tokens(fields[0].value)| && Gaps(g)
    ensures |fields| == 1 ==> value == Weave(g, Tokens(fields[0].value)) + end
    ensures |fields| > 1 ==>
      && |h| == |FieldTokens(fields[1..])| && Gaps(h) && AllSpace(comma)
      && value == Weave(g, Tokens(fields[0].value)) + (comma + [COMMA] + (Weave(h, FieldTokens(fields[1..])) + end))
  {
    hide StringToken, StringValue, AllLegal, Tokens, GetQuoted;
    var t, others := Tokens(fields[0].value), FieldTokens(fields[1..]);
    MemberStart(fields, gaps, end);
    assert FieldTokens(fields)[2..] == t + Separator(|fields|) + others;
    g, comma, h := SplitElement(gaps[2..], t, |fields|, others, end);
    value := Weave(gaps[2..], FieldTokens(fields)[2..]) + end;
    StringTokenReads(fields[0].name, gaps[1] + [COLON] + value);
  }

  lemma {:induction false} ParseWovenMembers(
    fields: seq<Field>, gaps: seq<Bytes>, gap: Bytes, rest: Bytes, nesting: nat, acc: seq<Member>)
    requires fields != [] && GrammaticalFields(fields) && Distinct(acc + DenoteFields(fields))
    requires |gaps| == |FieldTokens(fields)| && Gaps(gaps) && AllSpace(gap) && nesting > 0
    ensures
      ParseMembers(SkipSpace(Weave(gaps, FieldTokens(fields)) + (gap + [RBRACE] + rest)), nesting, acc) ==
      if nesting - 1 + MembersHeight(DenoteFields(fields)) <= MAX_NESTING
      then Parsed(Obj(acc + DenoteFields(fields)), rest) else Rejected
    decreases fields, 0
  {
    hide ParseValue, ParseMembers, Grammatical, Distinct, HasName, SkipSpace, AllSpace, StringToken, StringValue;
    hide AllLegal, AtMember, Extends, Tokens, Weave;
    var name, v, end := StringValue(fields[0].name), Denote(fields[0].value), gap + [RBRACE] + rest;
    var ms := DenoteFields(fields);
    assert ms[0] == Member(name, v) && ms[1..] == DenoteFields(fields[1..]);
    var value, g, comma, h := SplitMember(fields, gaps, end);
    var s := SkipSpace(Weave(gaps, FieldTokens(fields)) + end);
    NewName(acc, ms);
    var n := if v.Num? then v.x.Floor else 0;
    if |fields| == 1 {
      DelimiterEnds(n, gap, RBRACE, rest);
      ParseWoven(fields[0].value, g, end, nesting);
      if nesting + Height(v) <= MAX_NESTING {
        MembersLast(s, nesting, acc, name, gaps[1], value, v, gap, rest);
      } else {
        MembersRejected(s, nesting, acc, name, gaps[1], value);
      }
      assert fields[1..] == [] && acc + ms == acc + [ms[0]];
    } else {
      var next := Weave(h, FieldTokens(fields[1..])) + end;
      DelimiterEnds(n, comma, COMMA, next);
      ParseWoven(fields[0].value, g, comma + [COMMA] + next, nesting);
      if nesting + Height(v) <= MAX_NESTING {
        MembersMore(s, nesting, acc, name, gaps[1], value, v, comma, next);
        assert acc + [ms[0]] + ms[1..] == acc + ms;
        ParseWovenMembers(fields[1..], h, gap, rest, nesting, acc + [ms[0]]);
      } else {
        MembersRejected(s, nesting, acc, name, gaps[1], value);
      }
    }
  }

  lemma NewName(acc: seq<Member>, members: seq<Member>)
    requires members != [] && Distinct(acc + members)
    ensures !HasName(acc, members[0].name)
  {
    var all := acc + members;
    assert all[|acc|] == members[0];
    assert forall i :: 0 <= i < |acc| ==> all[i] == acc[i];
  }

  // --- Putting spellings together -------------------------------------------------

  /** Puts the brackets around the spelling of what is inside a container. */
  lemma BracketsAround(
    gap: Bytes, open: byte, inner: seq<Bytes>, tokens: seq<Bytes>, last: Bytes, close: byte, rest: Bytes)
    returns (gaps: seq<Bytes>)
    requires |inner| == |tokens| && Gaps(inner) && AllSpace(gap) && AllSpace(last)
    ensures |gaps| == |tokens| + 2 && Gaps(gaps)
    ensures Weave(gaps, [[open]] + tokens + [[close]]) + rest
      == gap + ([open] + (Weave(inner, tokens) + (last + [close] + rest)))
  {
    gaps := [gap] + inner + [last];
    assert gaps[1..|gaps| - 1] == inner && gaps[0] == gap && gaps[|gaps| - 1] == last;
    WeaveBracketed(gaps, open, tokens, close, rest);
  }

  /** Gluing an element, its comma with a gap in front of it, and what follows. */
  lemma JoinAfter(g: seq<Bytes>, t: seq<Bytes>, gap: Bytes, h: seq<Bytes>, others: seq<Bytes>, rest: Bytes)
    returns (gaps: seq<Bytes>)
    requires |g| == |t| && |h| == |others| && Gaps(g) && Gaps(h) && AllSpace(gap)
    ensures |gaps| == |t + [[COMMA]] + others| && Gaps(gaps)
    ensures Weave(gaps, t + [[COMMA]] + others) + rest
      == Weave(g, t) + (gap + ([COMMA] + (Weave(h, others) + rest)))
  {
    gaps := g + ([gap] + h);
    assert t + [[COMMA]] + others == t + ([[COMMA]] + others);
    WeaveConcat(g, t, [gap] + h, [[COMMA]] + others);
    WeaveCons(gap, [COMMA], h, others);
    assert Weave(g, t) + (gap + [COMMA] + Weave(h, others)) + rest
      == Weave(g, t) + (gap + ([COMMA] + (Weave(h, others) + rest)));
  }

  lemma WeaveField(before: Bytes, name: Bytes, colon: Bytes, g: seq<Bytes>, t: seq<Bytes>)
    requires |g| == |t|
    ensures Weave([before, colon] + g, [name, [COLON]] + t) == before + name + (colon + [COLON] + Weave(g, t))
  {
    WeaveCons(colon, [COLON], g, t);
    WeaveCons(before, name, [colon] + g, [[COLON]] + t);
    assert [before] + ([colon] + g) == [before, colon] + g && [name] + ([[COLON]] + t) == [name, [COLON]] + t;
  }

  lemma WeaveCons(gap: Bytes, token: Bytes, g: seq<Bytes>, t: seq<Bytes>)
    requires |g| == |t|
    ensures Weave([gap] + g, [token] + t) == gap + token + Weave(g, t)
  {
    assert ([gap] + g)[1..] == g && ([token] + t)[1..] == t;
  }

  // --- Main results ---------------------------------------------------------------

  /**
   Parsing undoes printing: compact or pretty, at any indentation level, in any context and
   at any nesting, a printed value parses back to itself with its member order, and the
   cursor stops right behind it, exactly when it fits under the nesting limit.
   */
  lemma ParseUndoesPrint(v: Json, level: nat, pretty: bool, lead: Bytes, rest: Bytes, nesting: nat)
    requires Printable(v) && AllSpace(lead)
    requires v.Num? ==> !Extends(v.x.Floor, rest)
    ensures ParseValue(lead + Text(v, level, pretty) + rest, nesting) ==
      if nesting + Height(v) <= MAX_NESTING then Parsed(v, rest) else Rejected
  {
    var gaps := TextIsWoven(v, level, pretty, lead);
    CanonicalDenotes(v);
    ParseWoven(Canonical(v), gaps, rest, nesting);
  }

  /** For a printed integer the condition on what follows is also necessary. */
  lemma PrintedNumberNeedsAnEnd(n: int, level: nat, pretty: bool, rest: Bytes)
    requires -MAX_EXACT <= n <= MAX_EXACT && Extends(n, rest)
    ensures ParseValue(Text(Num(n as real), level, pretty) + rest, 0) != Parsed(Num(n as real), rest)
  {
    ParseNumberText(n, rest);
  }

  /** `json_parse_string` on what `json_serialize_to_string` or its pretty form returns. */
  lemma ParseTextUndoesPrint(v: Json, pretty: bool)
    requires Printable(v)
    ensures ParseText(Text(v, 0, pretty)) == if Height(v) <= MAX_NESTING then Parsed(v, []) else Rejected
  {
    var s := Text(v, 0, pretty);
    assert [] + s + [] == s;
    TextStart(v, pretty);
    ParseUndoesPrint(v, 0, pretty, [], [], 0);
  }

  /** Exactly one byte order mark, U+FEFF in UTF-8, is skipped. */
  lemma ByteOrderMark(s: Bytes)
    ensures ParseText(Encode(0xFEFF) + s) == ParseValue(s, 0)
    ensures !(Encode(0xFEFF) <= s) ==> ParseText(s) == ParseValue(s, 0)
  {
    hide ParseValue;
    assert Encode(0xFEFF) == [0xEF, 0xBB, 0xBF];
    var t := Encode(0xFEFF) + s;
    assert t[0] == 0xEF && t[1] == 0xBB && t[2] == 0xBF && t[3..] == s;
  }

  /** Printed text starts with an ASCII byte, so no byte order mark is ever seen. */
  lemma TextStart(v: Json, pretty: bool)
    ensures Text(v, 0, pretty) != [] && Text(v, 0, pretty)[0] < 0x80
  {
  }

  /** Printing is injective: different printable values never share a text, even across styles. */
  lemma PrintInjective(v: Json, pretty: bool, w: Json, pretty': bool)
    requires Printable(v) && Printable(w) && Height(v) <= MAX_NESTING
    requires Text(v, 0, pretty) == Text(w, 0, pretty')
    ensures v == w
  {
    ParseTextUndoesPrint(v, pretty);
    ParseTextUndoesPrint(w, pretty');
  }
}
