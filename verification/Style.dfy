/**
 The two styles of the serializer of lib/parson.c, stated on tokens: which whitespace stands
 between two tokens depends only on these two and on the number of brackets open between them.
 */
module Style {
  import opened Bytes
  import opened Json
  import opened Strings
  import opened Glyphs
  import opened Numbers
  import opened Parser
  import opened Layout

  // --- The rule -------------------------------------------------------------------

  predicate Opening(t: Bytes) {
    t == [LBRACKET] || t == [LBRACE]
  }

  predicate Closing(t: Bytes) {
    t == [RBRACKET] || t == [RBRACE]
  }

  /** The number of open brackets behind a token. */
  function Deeper(depth: nat, t: Bytes): nat {
    if Opening(t) then depth + 1 else if Closing(t) && depth > 0 then depth - 1 else depth
  }

  /**
   The whitespace between two tokens. The compact style has none. The pretty style breaks the
   line, four spaces a level, before an element, before a name and before the closing bracket
   of a container that is not empty, and puts a space behind a colon.
   */
  function Gap(prev: Bytes, next: Bytes, depth: nat, pretty: bool): Bytes {
    if !pretty || prev == [] || (Opening(prev) && Closing(next)) then []
    else if Opening(prev) || prev == [COMMA] then [NEWLINE] + Spaces(4 * depth)
    else if Closing(next) then [NEWLINE] + Spaces(if depth > 0 then 4 * depth - 4 else 0)
    else if prev == [COLON] then [SPACE]
    else []
  }

  /** The tokens behind `prev` in a style, `depth` brackets being open. */
  function Lay(prev: Bytes, depth: nat, tokens: seq<Bytes>, pretty: bool): Bytes
    decreases |tokens|
  {
    if tokens == [] then []
    else
      Gap(prev, tokens[0], depth, pretty)
      + (tokens[0] + Lay(tokens[0], Deeper(depth, tokens[0]), tokens[1..], pretty))
  }

  // --- The serializer follows the rule --------------------------------------------

  lemma {:induction false} IndentIsSpaces(level: nat)
    ensures Indent(level) == Spaces(4 * level)
  {
    if level > 0 {
      IndentIsSpaces(level - 1);
    }
  }

  lemma LayOne(prev: Bytes, depth: nat, t: Bytes, more: seq<Bytes>, pretty: bool)
    ensures Lay(prev, depth, [t] + more, pretty)
      == Gap(prev, t, depth, pretty) + (t + Lay(t, Deeper(depth, t), more, pretty))
  {
    assert ([t] + more)[1..] == more;
  }

  /** A token that ends a value: the gap behind it does not depend on which it is. */
  predicate Settled(t: Bytes) {
    t != [] && !Opening(t) && t != [COMMA] && t != [COLON]
  }

  lemma SettledSame(t: Bytes, depth: nat, tokens: seq<Bytes>, pretty: bool)
    requires Settled(t)
    ensures Lay(t, depth, tokens, pretty) == Lay([RBRACKET], depth, tokens, pretty)
  {
  }

  /** The first token of a value. */
  lemma FirstToken(v: Json)
    ensures
      var t := Tokens(Canonical(v))[0];
      && t != [] && !Closing(t) && t != [COMMA] && t != [COLON]
      && (!v.Arr? && !v.Obj? ==> Settled(t) && Tokens(Canonical(v)) == [t])
  {
    hide SpellAll, CanonicalGlyphs, Digits;
  }

  /** The gap in front of a value. */
  function ValueGap(prev: Bytes, depth: nat, pretty: bool): Bytes {
    Gap(prev, [QUOTE], depth, pretty)
  }

  lemma GapOfValue(prev: Bytes, v: Json, depth: nat, pretty: bool)
    ensures Gap(prev, Tokens(Canonical(v))[0], depth, pretty) == ValueGap(prev, depth, pretty)
  {
    hide Tokens, Canonical;
    FirstToken(v);
  }

  lemma {:induction false} LayValue(v: Json, prev: Bytes, depth: nat, more: seq<Bytes>, pretty: bool)
    ensures Lay(prev, depth, Tokens(Canonical(v)) + more, pretty)
      == ValueGap(prev, depth, pretty) + (Text(v, depth, pretty) + Lay([RBRACKET], depth, more, pretty))
    decreases v, 1
  {
    hide Lay, Gap, Opening, Closing;
    match v
    case Arr(items) =>
      if items == [] {
        LayEmpty(prev, depth, LBRACKET, RBRACKET, more, pretty);
        assert Tokens(Canonical(v)) == [[LBRACKET], [RBRACKET]];
      } else {
        LayItems(items, [LBRACKET], depth, more, pretty);
        LayContainer(prev, depth, LBRACKET, ItemTokens(CanonicalItems(items)), RBRACKET, more, pretty);
        Enclose([LBRACKET], When(pretty, [NEWLINE]), ItemsText(items, depth, pretty), When(pretty, Indent(depth)),
                [RBRACKET], Lay([RBRACKET], depth, more, pretty));
      }
    case Obj(members) =>
      if members == [] {
        LayEmpty(prev, depth, LBRACE, RBRACE, more, pretty);
        assert Tokens(Canonical(v)) == [[LBRACE], [RBRACE]];
      } else {
        LayMembers(members, [LBRACE], depth, more, pretty);
        LayContainer(prev, depth, LBRACE, FieldTokens(CanonicalFields(members)), RBRACE, more, pretty);
        Enclose([LBRACE], When(pretty, [NEWLINE]), MembersText(members, depth, pretty), When(pretty, Indent(depth)),
                [RBRACE], Lay([RBRACKET], depth, more, pretty));
      }
    case _ => LayScalar(v, prev, depth, more, pretty);
  }

  lemma LayScalar(v: Json, prev: Bytes, depth: nat, more: seq<Bytes>, pretty: bool)
    requires !v.Arr? && !v.Obj?
    ensures Lay(prev, depth, Tokens(Canonical(v)) + more, pretty)
      == ValueGap(prev, depth, pretty) + (Text(v, depth, pretty) + Lay([RBRACKET], depth, more, pretty))
  {
    hide Lay, Gap;
    var t := Tokens(Canonical(v))[0];
    FirstToken(v);
    GapOfValue(prev, v, depth, pretty);
    LayOne(prev, depth, t, more, pretty);
    assert Deeper(depth, t) == depth by {
      ScalarKeepsDepth(v, depth);
    }
    SettledSame(t, depth, more, pretty);
    assert t == Text(v, depth, pretty) by {
      ScalarText(v, depth, pretty);
    }
  }

  lemma ScalarKeepsDepth(v: Json, depth: nat)
    requires !v.Arr? && !v.Obj?
    ensures Deeper(depth, Tokens(Canonical(v))[0]) == depth
  {
    hide Tokens, Canonical;
    FirstToken(v);
  }

  lemma ScalarText(v: Json, level: nat, pretty: bool)
    requires !v.Arr? && !v.Obj?
    ensures Tokens(Canonical(v))[0] == Text(v, level, pretty)
  {
    hide StringToken, CanonicalGlyphs, Quoted;
    if v.Str? {
      QuotedIsCanonical(v.s);
    }
  }

  lemma LayEmpty(prev: Bytes, depth: nat, open: byte, close: byte, more: seq<Bytes>, pretty: bool)
    requires (open == LBRACKET && close == RBRACKET) || (open == LBRACE && close == RBRACE)
    ensures Lay(prev, depth, [[open], [close]] + more, pretty)
      == ValueGap(prev, depth, pretty) + ([open, close] + Lay([RBRACKET], depth, more, pretty))
  {
    hide Lay;
    assert [[open], [close]] + more == [[open]] + ([[close]] + more);
    LayOne(prev, depth, [open], [[close]] + more, pretty);
    LayOne([open], depth + 1, [close], more, pretty);
    SettledSame([close], depth, more, pretty);
    var u := Lay([RBRACKET], depth, more, pretty);
    assert [open] + ([] + ([close] + u)) == [open, close] + u;
  }

  /** The opening bracket of a container that is not empty. */
  lemma LayContainer(
    prev: Bytes, depth: nat, open: byte, tokens: seq<Bytes>, close: byte, more: seq<Bytes>, pretty: bool)
    requires open == LBRACKET || open == LBRACE
    ensures Lay(prev, depth, [[open]] + tokens + [[close]] + more, pretty)
      == ValueGap(prev, depth, pretty)
         + ([open] + Lay([open], depth + 1, tokens + ([[close]] + more), pretty))
  {
    hide Lay;
    var inner := tokens + ([[close]] + more);
    assert [[open]] + tokens + [[close]] + more == [[open]] + inner;
    LayOne(prev, depth, [open], inner, pretty);
  }

  lemma Enclose(open: Bytes, nl: Bytes, body: Bytes, indent: Bytes, close: Bytes, rest: Bytes)
    ensures open + (nl + (body + (indent + (close + rest)))) == (open + nl + body + indent + close) + rest
  {
    assert body + (indent + (close + rest)) == (body + indent + close) + rest;
    assert nl + ((body + indent + close) + rest) == (nl + body + indent + close) + rest;
  }

  /** The closing bracket of a container that is not empty. */
  lemma LayClose(depth: nat, close: byte, more: seq<Bytes>, pretty: bool)
    requires close == RBRACKET || close == RBRACE
    ensures Lay([RBRACKET], depth + 1, [[close]] + more, pretty)
      == When(pretty, [NEWLINE]) + (When(pretty, Indent(depth)) + ([close] + Lay([RBRACKET], depth, more, pretty)))
  {
    hide Lay;
    IndentIsSpaces(depth);
    LayOne([RBRACKET], depth + 1, [close], more, pretty);
    SettledSame([close], depth, more, pretty);
    var u := [close] + Lay([RBRACKET], depth, more, pretty);
    assert [NEWLINE] + (Spaces(4 * depth) + u) == [NEWLINE] + Spaces(4 * depth) + u;
    assert [] + ([] + u) == u && [] + u == u;
  }

  /** The gap in front of an element or a name. */
  lemma ElementGap(prev: Bytes, next: Bytes, depth: nat, pretty: bool)
    requires (Opening(prev) || prev == [COMMA]) && !Closing(next)
    ensures Gap(prev, next, depth, pretty) == When(pretty, [NEWLINE]) + When(pretty, Indent(depth))
  {
    IndentIsSpaces(depth);
  }

  lemma CommaAfter(depth: nat, others: seq<Bytes>, pretty: bool)
    ensures Lay([RBRACKET], depth, [[COMMA]] + others, pretty) == [COMMA] + Lay([COMMA], depth, others, pretty)
  {
    hide Lay;
    LayOne([RBRACKET], depth, [COMMA], others, pretty);
    var u := [COMMA] + Lay([COMMA], depth, others, pretty);
    assert [] + u == u;
  }

  /** One turn of a loop, and the rest of the text behind it. */
  lemma TurnAlgebra(nl: Bytes, indent: Bytes, text: Bytes, comma: Bytes, more: Bytes, rest: Bytes)
    ensures (nl + indent) + (text + (comma + (nl + (more + rest))))
      == nl + ((indent + text + comma + nl + more) + rest)
  {
    assert text + (comma + (nl + (more + rest))) == (text + comma + nl + more) + rest;
    assert indent + ((text + comma + nl + more) + rest) == (indent + text + comma + nl + more) + rest;
    assert (nl + indent) + ((text + comma + nl + more) + rest) == nl + (indent + ((text + comma + nl + more) + rest));
  }

  lemma {:induction false} LayItems(items: seq<Json>, prev: Bytes, depth: nat, more: seq<Bytes>, pretty: bool)
    requires items != [] && (prev == [LBRACKET] || prev == [COMMA])
    ensures Lay(prev, depth + 1, ItemTokens(CanonicalItems(items)) + ([[RBRACKET]] + more), pretty)
      == When(pretty, [NEWLINE])
         + (ItemsText(items, depth, pretty)
            + (When(pretty, Indent(depth)) + ([RBRACKET] + Lay([RBRACKET], depth, more, pretty))))
    decreases items, 0
  {
    hide Lay, Gap, Text, Tokens, Indent, When;
    var c := CanonicalItems(items);
    assert c[0] == Canonical(items[0]) && c[1..] == CanonicalItems(items[1..]);
    var t, others, end := Tokens(c[0]), ItemTokens(c[1..]), [[RBRACKET]] + more;
    var nl, indent := When(pretty, [NEWLINE]), When(pretty, Indent(depth + 1));
    var rest := When(pretty, Indent(depth)) + ([RBRACKET] + Lay([RBRACKET], depth, more, pretty));
    ElementGap(prev, [QUOTE], depth + 1, pretty);
    var text := Text(items[0], depth + 1, pretty);
    if |items| == 1 {
      assert items[1..] == [] && c[1..] == [];
      assert ItemTokens(c) + end == t + end;
      LayValue(items[0], prev, depth + 1, end, pretty);
      LayClose(depth, RBRACKET, more, pretty);
      assert ItemsText(items, depth, pretty) == indent + text + [] + nl + [];
      assert [] + rest == rest && [] + (nl + rest) == nl + rest;
      TurnAlgebra(nl, indent, text, [], [], rest);
    } else {
      assert ItemTokens(c) + end == t + ([[COMMA]] + (others + end));
      LayValue(items[0], prev, depth + 1, [[COMMA]] + (others + end), pretty);
      CommaAfter(depth + 1, others + end, pretty);
      LayItems(items[1..], [COMMA], depth, more, pretty);
      assert ItemsText(items, depth, pretty) == indent + text + [COMMA] + nl + ItemsText(items[1..], depth, pretty);
      TurnAlgebra(nl, indent, text, [COMMA], ItemsText(items[1..], depth, pretty), rest);
    }
  }

  /** A name and its colon in front of a value. */
  lemma {:induction false} LayName(prev: Bytes, depth: nat, name: Bytes, v: Json, more: seq<Bytes>, pretty: bool)
    requires prev == [LBRACE] || prev == [COMMA]
    ensures Lay(prev, depth, [Quoted(name), [COLON]] + Tokens(Canonical(v)) + more, pretty)
      == (When(pretty, [NEWLINE]) + When(pretty, Indent(depth)))
         + ((Quoted(name) + [COLON] + When(pretty, [SPACE]) + Text(v, depth, pretty))
            + Lay([RBRACKET], depth, more, pretty))
    decreases v, 2
  {
    hide Lay, Tokens, EscapeAll, Indent;
    var q, tokens := Quoted(name), Tokens(Canonical(v)) + more;
    assert [q, [COLON]] + Tokens(Canonical(v)) + more == [q] + ([[COLON]] + tokens);
    assert q[0] == QUOTE && |q| >= 2;
    ElementGap(prev, q, depth, pretty);
    LayOne(prev, depth, q, [[COLON]] + tokens, pretty);
    SettledSame(q, depth, [[COLON]] + tokens, pretty);
    LayOne([RBRACKET], depth, [COLON], tokens, pretty);
    LayValue(v, [COLON], depth, more, pretty);
    NameAlgebra(q, When(pretty, [SPACE]), Text(v, depth, pretty), Lay([RBRACKET], depth, more, pretty));
  }

  lemma NameAlgebra(q: Bytes, sp: Bytes, text: Bytes, rest: Bytes)
    ensures q + ([] + ([COLON] + (sp + (text + rest)))) == (q + [COLON] + sp + text) + rest
  {
    assert [] + ([COLON] + (sp + (text + rest))) == ([COLON] + sp + text) + rest;
  }

  lemma {:induction false} LayMembers(members: seq<Member>, prev: Bytes, depth: nat, more: seq<Bytes>, pretty: bool)
    requires members != [] && (prev == [LBRACE] || prev == [COMMA])
    ensures Lay(prev, depth + 1, FieldTokens(CanonicalFields(members)) + ([[RBRACE]] + more), pretty)
      == When(pretty, [NEWLINE])
         + (MembersText(members, depth, pretty)
            + (When(pretty, Indent(depth)) + ([RBRACE] + Lay([RBRACKET], depth, more, pretty))))
    decreases members, 0
  {
    hide Lay, Gap, Text, Tokens, Indent, When, Quoted, CanonicalGlyphs, StringToken, AllLegal, StringValue;
    var c := CanonicalFields(members);
    var name, v := members[0].name, members[0].value;
    QuotedIsCanonical(name);
    assert StringToken(c[0].name) == Quoted(name) && c[0].value == Canonical(v) && c[1..] == CanonicalFields(members[1..]);
    var t, others, end := [Quoted(name), [COLON]] + Tokens(Canonical(v)), FieldTokens(c[1..]), [[RBRACE]] + more;
    var nl, indent := When(pretty, [NEWLINE]), When(pretty, Indent(depth + 1));
    var rest := When(pretty, Indent(depth)) + ([RBRACE] + Lay([RBRACKET], depth, more, pretty));
    var text := Quoted(name) + [COLON] + When(pretty, [SPACE]) + Text(v, depth + 1, pretty);
    if |members| == 1 {
      assert members[1..] == [] && c[1..] == [];
      assert FieldTokens(c) + end == t + end;
      LayName(prev, depth + 1, name, v, end, pretty);
      LayClose(depth, RBRACE, more, pretty);
      MemberAlgebra(indent, Quoted(name), When(pretty, [SPACE]), Text(v, depth + 1, pretty), [], nl, []);
      assert MembersText(members, depth, pretty) == indent + text + [] + nl + [];
      assert [] + rest == rest && [] + (nl + rest) == nl + rest;
      TurnAlgebra(nl, indent, text, [], [], rest);
    } else {
      assert FieldTokens(c) + end == t + ([[COMMA]] + (others + end));
      LayName(prev, depth + 1, name, v, [[COMMA]] + (others + end), pretty);
      CommaAfter(depth + 1, others + end, pretty);
      LayMembers(members[1..], [COMMA], depth, more, pretty);
      var tail := MembersText(members[1..], depth, pretty);
      MemberAlgebra(indent, Quoted(name), When(pretty, [SPACE]), Text(v, depth + 1, pretty), [COMMA], nl, tail);
      assert MembersText(members, depth, pretty) == indent + text + [COMMA] + nl + tail;
      TurnAlgebra(nl, indent, text, [COMMA], tail, rest);
    }
  }

  lemma MemberAlgebra(indent: Bytes, q: Bytes, sp: Bytes, text: Bytes, comma: Bytes, nl: Bytes, more: Bytes)
    ensures (indent + q + [COLON] + sp + text + comma + nl) + more
      == indent + (q + [COLON] + sp + text) + comma + nl + more
  {
    assert indent + q + [COLON] + sp + text == indent + (q + [COLON] + sp + text);
  }

  /**
   What the serializer writes, in both styles and at every level: the tokens of the value,
   with exactly the whitespace of the rule between them.
   */
  lemma TextIsLaid(v: Json, level: nat, pretty: bool)
    ensures Text(v, level, pretty) == Lay([], level, Tokens(Canonical(v)), pretty)
  {
    hide Tokens, Text;
    var t := Text(v, level, pretty);
    LayValue(v, [], level, [], pretty);
    assert Tokens(Canonical(v)) + [] == Tokens(Canonical(v));
    assert Lay([RBRACKET], level, [], pretty) == [];
    assert [] + (t + []) == t;
  }

  /** The object {"a": 1} in both styles, byte by byte. */
  lemma PrintedExample()
    ensures var v := Obj([Member([0x61], Num(1.0))]);
      && Text(v, 0, false) == [LBRACE, QUOTE, 0x61, QUOTE, COLON, 0x31, RBRACE]
      && Text(v, 0, true) ==
           [LBRACE, NEWLINE, SPACE, SPACE, SPACE, SPACE, QUOTE, 0x61, QUOTE, COLON, SPACE, 0x31, NEWLINE, RBRACE]
  {
    var m := Member([0x61], Num(1.0));
    var members := [m];
    assert members[1..] == [];
    OneMember(m, false);
    OneMember(m, true);
    assert Quoted([0x61]) == [QUOTE, 0x61, QUOTE] by {
      assert [0x61][1..] == [];
      assert EscapeAll([0x61]) == [0x61] + EscapeAll([]);
    }
    assert Indent(1) == [SPACE, SPACE, SPACE, SPACE] + Indent(0);
    assert DecimalText(1) == [0x31];
  }

  lemma OneMember(m: Member, pretty: bool)
    ensures MembersText([m], 0, pretty) == MemberText(m, 1, 0, pretty)
  {
    hide MemberText;
    assert [m][1..] == [];
    assert MembersText([], 0, pretty) == [];
    assert MemberText(m, 1, 0, pretty) + [] == MemberText(m, 1, 0, pretty);
  }

  // --- Consequences ---------------------------------------------------------------

  function Joined(tokens: seq<Bytes>): Bytes {
    if tokens == [] then [] else tokens[0] + Joined(tokens[1..])
  }

  lemma {:induction false} CompactGapsAreEmpty(prev: Bytes, depth: nat, tokens: seq<Bytes>)
    ensures Lay(prev, depth, tokens, false) == Joined(tokens)
    decreases |tokens|
  {
    if tokens != [] {
      CompactGapsAreEmpty(tokens[0], Deeper(depth, tokens[0]), tokens[1..]);
    }
  }

  /** The compact text is the tokens and nothing else. */
  lemma CompactIsTokens(v: Json, level: nat)
    ensures Text(v, level, false) == Joined(Tokens(Canonical(v)))
  {
    TextIsLaid(v, level, false);
    CompactGapsAreEmpty([], level, Tokens(Canonical(v)));
  }

  // Printed text can be embedded in xml/html, and compact text is one line.

  /** A token with tidy escapes and no control characters. */
  predicate TidyToken(t: Bytes) {
    Tidy(t) && forall i :: 0 <= i < |t| ==> t[i] >= 0x20
  }

  predicate TidyTokens(tokens: seq<Bytes>) {
    forall i :: 0 <= i < |tokens| ==> TidyToken(tokens[i])
  }

  lemma {:induction false} PlainIsTidy(t: Bytes)
    requires forall i :: 0 <= i < |t| ==> t[i] != BACKSLASH && t[i] != SLASH
    ensures Tidy(t)
  {
    if t != [] {
      PlainIsTidy(t[1..]);
    }
  }

  lemma QuotedIsTidy(s: Bytes)
    ensures TidyToken(Quoted(s))
  {
    hide Tidy, EscapeAll;
    EscapeAllIsTidy(s);
    PlainIsTidy([QUOTE]);
    TidyConcat([QUOTE], EscapeAll(s));
    TidyConcat([QUOTE] + EscapeAll(s), [QUOTE]);
  }

  lemma PunctuationIsTidy()
    ensures TidyToken([LBRACKET]) && TidyToken([RBRACKET]) && TidyToken([LBRACE]) && TidyToken([RBRACE])
    ensures TidyToken([COMMA]) && TidyToken([COLON])
    ensures TidyToken(TRUE) && TidyToken(FALSE) && TidyToken(NULL)
  {
    hide Tidy;
    PlainIsTidy([LBRACKET]);
    PlainIsTidy([RBRACKET]);
    PlainIsTidy([LBRACE]);
    PlainIsTidy([RBRACE]);
    PlainIsTidy([COMMA]);
    PlainIsTidy([COLON]);
    PlainIsTidy(TRUE);
    PlainIsTidy(FALSE);
    PlainIsTidy(NULL);
  }

  lemma DecimalIsTidy(n: int)
    ensures TidyToken(DecimalText(n))
  {
    hide Tidy, Digits;
    DigitsShape(if n < 0 then -n else n);
    PlainIsTidy(DecimalText(n));
  }

  lemma {:induction false} TokensAreTidy(v: Json)
    ensures TidyTokens(Tokens(Canonical(v)))
    decreases v, 1
  {
    hide TidyToken, StringToken, Quoted, CanonicalGlyphs, DecimalText;
    PunctuationIsTidy();
    match v
    case Num(x) => DecimalIsTidy(x.Floor);
    case Str(s) =>
      QuotedIsCanonical(s);
      QuotedIsTidy(s);
    case Arr(items) => ItemTokensAreTidy(items);
    case Obj(members) => FieldTokensAreTidy(members);
    case _ =>
  }

  lemma {:induction false} ItemTokensAreTidy(items: seq<Json>)
    ensures TidyTokens(ItemTokens(CanonicalItems(items)))
    decreases items, 0
  {
    hide TidyToken, Tokens, Canonical;
    if items != [] {
      var c := CanonicalItems(items);
      assert c[0] == Canonical(items[0]) && c[1..] == CanonicalItems(items[1..]);
      TokensAreTidy(items[0]);
      ItemTokensAreTidy(items[1..]);
      PunctuationIsTidy();
    }
  }

  lemma {:induction false} FieldTokensAreTidy(members: seq<Member>)
    ensures TidyTokens(FieldTokens(CanonicalFields(members)))
    decreases members, 0
  {
    hide TidyToken, Tokens, Canonical, StringToken, Quoted, CanonicalGlyphs, AllLegal, StringValue;
    if members != [] {
      var c := CanonicalFields(members);
      var name := members[0].name;
      assert c[0] == Field(CanonicalGlyphs(name), Canonical(members[0].value)) && c[1..] == CanonicalFields(members[1..]);
      QuotedIsCanonical(name);
      QuotedIsTidy(name);
      TokensAreTidy(members[0].value);
      FieldTokensAreTidy(members[1..]);
      PunctuationIsTidy();
    }
  }

  lemma {:induction false} LayIsTidy(prev: Bytes, depth: nat, tokens: seq<Bytes>, pretty: bool)
    requires TidyTokens(tokens)
    ensures Tidy(Lay(prev, depth, tokens, pretty))
    ensures !pretty ==> forall i :: 0 <= i < |Lay(prev, depth, tokens, pretty)| ==> Lay(prev, depth, tokens, pretty)[i] >= 0x20
    decreases |tokens|
  {
    hide Tidy, Deeper;
    if tokens == [] {
      NothingIsTidy();
    } else {
      var gap, t := Gap(prev, tokens[0], depth, pretty), tokens[0];
      var more := Lay(t, Deeper(depth, t), tokens[1..], pretty);
      LayIsTidy(t, Deeper(depth, t), tokens[1..], pretty);
      PlainIsTidy(gap);
      TidyConcat(t, more);
      TidyConcat(gap, t + more);
    }
  }

  /**
   In printed text every slash stands behind the backslash of its escape, so no end tag of a
   surrounding document can occur in it, and every digit of an escape is in lower case.
   */
  lemma TextIsTidy(v: Json, level: nat, pretty: bool)
    ensures var t := Text(v, level, pretty);
      && Tidy(t)
      && forall i :: 0 <= i < |t| && t[i] == SLASH ==> i > 0 && t[i - 1] == BACKSLASH
  {
    hide Tidy, Text, Lay, Tokens, TidyTokens;
    TextIsLaid(v, level, pretty);
    TokensAreTidy(v);
    LayIsTidy([], level, Tokens(Canonical(v)), pretty);
    var t := Text(v, level, pretty);
    forall i | 0 <= i < |t| && t[i] == SLASH
      ensures i > 0 && t[i - 1] == BACKSLASH
    {
      TidySlash(t, i);
    }
  }

  /** Compact text is one line, without control characters, whatever its strings contain. */
  lemma CompactIsOneLine(v: Json, level: nat)
    ensures forall i :: 0 <= i < |Text(v, level, false)| ==> Text(v, level, false)[i] >= 0x20
  {
    hide Tidy, Text, Lay, Tokens, TidyTokens;
    TextIsLaid(v, level, false);
    TokensAreTidy(v);
    LayIsTidy([], level, Tokens(Canonical(v)), false);
  }

  /** Laying tokens out puts whitespace between them. */
  lemma {:induction false} LayIsWoven(prev: Bytes, depth: nat, tokens: seq<Bytes>, pretty: bool) returns (gaps: seq<Bytes>)
    ensures |gaps| == |tokens| && Gaps(gaps) && Weave(gaps, tokens) == Lay(prev, depth, tokens, pretty)
    decreases |tokens|
  {
    hide Deeper;
    if tokens == [] {
      gaps := [];
    } else {
      var more := LayIsWoven(tokens[0], Deeper(depth, tokens[0]), tokens[1..], pretty);
      var gap := Gap(prev, tokens[0], depth, pretty);
      gaps := [gap] + more;
      assert gaps[1..] == more;
      assert gap + tokens[0] + Weave(more, tokens[1..]) == gap + (tokens[0] + Weave(more, tokens[1..]));
    }
  }

  /** The serializer's text is its tokens with only whitespace between them. */
  lemma TextIsWoven(v: Json, level: nat, pretty: bool, lead: Bytes) returns (gaps: seq<Bytes>)
    requires Printable(v) && AllSpace(lead)
    ensures |gaps| == |Tokens(Canonical(v))| && Gaps(gaps)
    ensures lead + Text(v, level, pretty) == Weave(gaps, Tokens(Canonical(v)))
  {
    hide Text, Lay, Tokens;
    var tokens := Tokens(Canonical(v));
    TextIsLaid(v, level, pretty);
    var g := LayIsWoven([], level, tokens, pretty);
    gaps := [lead + g[0]] + g[1..];
    assert gaps[1..] == g[1..];
    assert lead + (g[0] + tokens[0] + Weave(g[1..], tokens[1..])) == lead + g[0] + tokens[0] + Weave(g[1..], tokens[1..]);
  }
}
