/**
 The language the parser accepts. Beyond reading every text the grammar allows, as `RoundTrip`
 shows, it reads nothing else, apart from one quirk: a lone minus sign reads as zero and is
 not consumed.
 */
module Grammar {
  import opened Bytes
  import opened Json
  import opened Strings
  import opened Glyphs
  import opened Numbers
  import opened Parser
  import opened Layout
  import opened RoundTrip
  import Soundness

  // --- Numbers --------------------------------------------------------------------

  /** A lone minus sign, which `strtod` converts to zero without consuming it. */
  predicate LoneMinus(t: Bytes) {
    Peek(t) == MINUS && Scan(t[1..]).len == 0
  }

  lemma LoneMinusStays(s: Bytes, nesting: nat)
    requires LoneMinus(SkipSpace(s)) && nesting <= MAX_NESTING
    ensures ParseValue(s, nesting) == Parsed(Num(0.0), SkipSpace(s))
  {
    hide Scan, SkipSpace;
    var t := SkipSpace(s);
    assert Strtod(t) == Token(0, Integer(0));
    assert t[..0] == [] && t[0..] == t;
    assert ReadNumber(t) == Good(0, t);
  }

  lemma {:induction false} DigitsOfValue(ds: Bytes)
    requires AllDigits(ds) && ds != [] && (|ds| > 1 ==> ds[0] != ZERO)
    ensures Digits(DigitsValue(ds)) == ds
    ensures |ds| > 1 ==> DigitsValue(ds) > 0
  {
    var k := |ds| - 1;
    var last := ds[k] as int - 0x30;
    assert ds == ds[..k] + [ds[k]];
    if k == 0 {
      assert ds[..0] == [];
      assert DigitsValue(ds) == last;
    } else {
      DigitsOfValue(ds[..k]);
      if k == 1 {
        assert ds[..1] == [ds[0]];
        assert ds[..1][..0] == [];
        assert DigitsValue(ds[..1]) == ds[0] as int - 0x30;
      }
      assert DigitsValue(ds) == DigitsValue(ds[..k]) * 10 + last;
      assert DigitsValue(ds) / 10 == DigitsValue(ds[..k]) && DigitsValue(ds) % 10 == last;
    }
  }

  lemma DigitsTextOf(ds: Bytes)
    requires AllDigits(ds) && ds != [] && IsDecimal(ds)
    ensures Digits(DigitsValue(ds)) == ds
  {
    assert |ds| > 1 ==> ds[1] != DOT;
    DigitsOfValue(ds);
  }

  lemma NegativeTextOf(ds: Bytes)
    requires AllDigits(ds) && ds != [] && IsDecimal([MINUS] + ds) && DigitsValue(ds) > 0
    ensures DecimalText(0 - DigitsValue(ds) as int) == [MINUS] + ds
  {
    assert |ds| > 1 ==> ds[1] != DOT && ([MINUS] + ds)[2] == ds[1];
    DigitsOfValue(ds);
  }

  /** Any other number that is read within the model is an integer's only decimal spelling. */
  lemma NumberIsDecimal(s: Bytes, n: int, rest: Bytes)
    requires Peek(s) == MINUS || IsDigit(Peek(s))
    requires ReadNumber(s) == Good(n, rest) && !LoneMinus(s)
    ensures -MAX_EXACT <= n <= MAX_EXACT && s == DecimalText(n) + rest && !Extends(n, rest)
  {
    hide Scan, IsDecimal, Extends, ReadNumber, Strtod;
    GoodIsInteger(s);
    var len := Strtod(s).len;
    assert s == s[..len] + s[len..];
    if s[0] == MINUS {
      var u := s[1..];
      IntegerToken(u);
      var ds := u[..Scan(u).len];
      assert s[..len] == [MINUS] + ds;
      NegativeTextOf(ds);
    } else {
      ScanOfDigit(s);
      IntegerToken(s);
      DigitsTextOf(s[..len]);
    }
    NumberRoundTrip(n, rest);
  }

  lemma ScanOfDigit(s: Bytes)
    requires s != [] && IsDigit(s[0])
    ensures Scan(s).len > 0
  {
    hide HexLength, ExponentLength;
  }

  // --- Every text that is read is grammatical -------------------------------------

  /** The whitespace the parser skips. */
  lemma {:induction false} SkippedGap(s: Bytes) returns (gap: Bytes)
    ensures AllSpace(gap) && s == gap + SkipSpace(s)
  {
    if s != [] && IsSpace(s[0]) {
      var g := SkippedGap(s[1..]);
      gap := [s[0]] + g;
    } else {
      gap := [];
    }
  }

  /** `s` spells `sp` with whitespace between its tokens, up to `rest`. */
  ghost predicate Spells(s: Bytes, sp: Spelling, gaps: seq<Bytes>, rest: Bytes) {
    |gaps| == |Tokens(sp)| && Gaps(gaps) && s == Weave(gaps, Tokens(sp)) + rest
  }

  lemma SpellsScalar(s: Bytes, gap: Bytes, sp: Spelling, rest: Bytes)
    requires Scalar(sp) && AllSpace(gap) && s == gap + (Tokens(sp)[0] + rest)
    ensures Spells(s, sp, [gap], rest)
  {
    WeaveOne([gap], Tokens(sp)[0]);
    assert Tokens(sp) == [Tokens(sp)[0]];
    assert gap + Tokens(sp)[0] + rest == s;
  }

  lemma ScalarIsGrammatical(s: Bytes, nesting: nat) returns (sp: Spelling, gaps: seq<Bytes>)
    requires ParseValue(s, nesting).Parsed? && !LoneMinus(SkipSpace(s))
    requires Peek(SkipSpace(s)) != LBRACE && Peek(SkipSpace(s)) != LBRACKET
    ensures
      var r := ParseValue(s, nesting);
      Grammatical(sp) && Denote(sp) == r.value && Spells(s, sp, gaps, r.rest) && Ends(r.value, r.rest)
  {
    hide Scan, ReadNumber, GetQuoted, SkipSpace, StringToken, StringValue, AllLegal, Tokens, LoneMinus, Extends;
    var r := ParseValue(s, nesting);
    var t := SkipSpace(s);
    var gap := SkippedGap(s);
    gaps := [gap];
    if Peek(t) == QUOTE {
      var gs := QuotedIsStringToken(t);
      sp := Literal(gs);
      ScalarTokens(sp);
    } else if Peek(t) == MINUS || IsDigit(Peek(t)) {
      NumberIsDecimal(t, ReadNumber(t).n, r.rest);
      sp := Decimal(ReadNumber(t).n);
      ScalarTokens(sp);
    } else {
      sp := Keyword(r.value);
      KeywordIsToken(t);
      ScalarTokens(sp);
    }
    SpellsScalar(s, gap, sp, r.rest);
  }

  lemma ScalarTokens(sp: Spelling)
    ensures sp.Literal? ==> Tokens(sp) == [StringToken(sp.glyphs)]
    ensures sp.Decimal? ==> Tokens(sp) == [DecimalText(sp.n)]
    ensures sp.Keyword? ==> Tokens(sp) == [if sp.v == Bool(true) then TRUE else if sp.v == Bool(false) then FALSE else NULL]
  {
  }

  lemma KeywordIsToken(t: Bytes)
    ensures ParseBoolean(t).Parsed? ==>
      var r := ParseBoolean(t);
      r.value.Bool? && t == (if r.value.b then TRUE else FALSE) + r.rest
    ensures ParseNull(t).Parsed? ==> ParseNull(t).value.Null? && t == NULL + ParseNull(t).rest
  {
    if TRUE <= t {
      assert t == t[..4] + t[4..];
    } else if FALSE <= t {
      assert t == t[..5] + t[5..];
    }
    if NULL <= t {
      assert t == t[..4] + t[4..];
    }
  }

  lemma WithinLimit(s: Bytes, nesting: nat)
    requires ParseValue(s, nesting).Parsed?
    ensures nesting <= MAX_NESTING
  {
  }

  /** Inside a container a lone minus sign always fails: neither a comma nor a bracket follows. */
  lemma NoLoneMinus(s: Bytes, nesting: nat)
    requires ParseValue(s, nesting).Parsed?
    requires Peek(SkipSpace(ParseValue(s, nesting).rest)) != MINUS
    ensures !LoneMinus(SkipSpace(s))
  {
    hide ParseValue, Scan;
    WithinLimit(s, nesting);
    if LoneMinus(SkipSpace(s)) {
      LoneMinusStays(s, nesting);
      SkipSpaceIdempotent(s);
      assert false;
    }
  }

  /** What the parser reads as a value, apart from a lone minus sign, is a spelling of that value. */
  lemma {:induction false} ParsedIsGrammatical(s: Bytes, nesting: nat) returns (sp: Spelling, gaps: seq<Bytes>)
    requires ParseValue(s, nesting).Parsed? && !LoneMinus(SkipSpace(s))
    ensures
      var r := ParseValue(s, nesting);
      Grammatical(sp) && Denote(sp) == r.value && Spells(s, sp, gaps, r.rest) && Ends(r.value, r.rest)
    decreases |s|, 2
  {
    if Peek(SkipSpace(s)) == LBRACKET {
      sp, gaps := ArrayIsGrammatical(s, nesting);
    } else if Peek(SkipSpace(s)) == LBRACE {
      sp, gaps := ObjectIsGrammatical(s, nesting);
    } else {
      sp, gaps := ScalarIsGrammatical(s, nesting);
    }
  }

  lemma {:induction false} ArrayIsGrammatical(s: Bytes, nesting: nat) returns (sp: Spelling, gaps: seq<Bytes>)
    requires ParseValue(s, nesting).Parsed? && Peek(SkipSpace(s)) == LBRACKET
    ensures
      var r := ParseValue(s, nesting);
      r.value.Arr? && Grammatical(sp) && Denote(sp) == r.value && Spells(s, sp, gaps, r.rest)
    decreases |s|, 1
  {
    hide ParseValue, ParseItems, SkipSpace, AllSpace, Weave;
    var r := ParseValue(s, nesting);
    var t := SkipSpace(s);
    var gap := SkippedGap(s);
    var body := t[1..];
    assert t == [LBRACKET] + body;
    ParseOverGap(gap, t, nesting);
    UnfoldArray(body, nesting);
    var items, inner, last := [], [], [];
    if Peek(SkipSpace(body)) == RBRACKET {
      last := SkippedGap(body);
      assert SkipSpace(body) == [RBRACKET] + r.rest;
      assert body == Weave([], []) + (last + [RBRACKET] + r.rest) by {
        EmptyWeave();
      }
    } else {
      items, inner, last := ItemsAreGrammatical(body, nesting + 1, []);
      assert [] + DenoteItems(items) == DenoteItems(items);
    }
    sp := List(items);
    gaps := BracketsAround(gap, LBRACKET, inner, ItemTokens(items), last, RBRACKET, r.rest);
  }

  lemma EmptyWeave()
    ensures Weave([], []) == []
  {
  }

  /** The elements `items` and the closing bracket are spelled by `s` up to `rest`. */
  ghost predicate SpellsItems(s: Bytes, items: seq<Spelling>, gaps: seq<Bytes>, last: Bytes, rest: Bytes) {
    && items != [] && GrammaticalItems(items)
    && |gaps| == |ItemTokens(items)| && Gaps(gaps) && AllSpace(last)
    && s == Weave(gaps, ItemTokens(items)) + (last + [RBRACKET] + rest)
  }

  lemma LastItem(s: Bytes, sp: Spelling, g: seq<Bytes>, after: Bytes, rest: Bytes)
    requires Grammatical(sp) && AllSpace(after) && Spells(s, sp, g, after + ([RBRACKET] + rest))
    ensures SpellsItems(s, [sp], g, after, rest) && GrammaticalItems([sp]) && DenoteItems([sp]) == [Denote(sp)]
  {
    hide Grammatical, Tokens, Weave;
    assert [sp][1..] == [] && ItemTokens([sp]) == Tokens(sp);
    assert after + ([RBRACKET] + rest) == after + [RBRACKET] + rest;
  }

  lemma MoreItems(
    s: Bytes, sp: Spelling, g: seq<Bytes>, after: Bytes, next: Bytes,
    others: seq<Spelling>, h: seq<Bytes>, last: Bytes, rest: Bytes) returns (gaps: seq<Bytes>)
    requires Grammatical(sp) && AllSpace(after) && Spells(s, sp, g, after + ([COMMA] + next))
    requires SpellsItems(next, others, h, last, rest)
    ensures SpellsItems(s, [sp] + others, gaps, last, rest) && GrammaticalItems([sp] + others)
    ensures DenoteItems([sp] + others) == [Denote(sp)] + DenoteItems(others)
  {
    hide Grammatical, Tokens, Weave;
    var items := [sp] + others;
    assert items[1..] == others;
    assert ItemTokens(items) == Tokens(sp) + [[COMMA]] + ItemTokens(others);
    gaps := JoinAfter(g, Tokens(sp), after, h, ItemTokens(others), last + [RBRACKET] + rest);
  }

  /** The elements read by the loop of `parse_array_value`, called on what follows the whitespace of `s`. */
  lemma {:induction false} ItemsAreGrammatical(s: Bytes, nesting: nat, acc: seq<Json>)
    returns (items: seq<Spelling>, gaps: seq<Bytes>, last: Bytes)
    requires ParseItems(SkipSpace(s), nesting, acc).Parsed?
    ensures GrammaticalItems(items)
    ensures
      var r := ParseItems(SkipSpace(s), nesting, acc);
      SpellsItems(s, items, gaps, last, r.rest) && r.value == Arr(acc + DenoteItems(items))
    decreases |s|, 3
  {
    hide ParseValue, SkipSpace, AllSpace, Weave, Grammatical, Denote, DenoteItems, Tokens, LoneMinus, Extends;
    hide SpellsItems, Spells;
    ParseOverGap([], s, nesting);
    var r := ParseItems(SkipSpace(s), nesting, acc);
    var value := ParseValue(s, nesting);
    var x := SkipSpace(value.rest);
    NoLoneMinus(s, nesting);
    var sp, g := ParsedIsGrammatical(s, nesting);
    var after := SkippedGap(value.rest);
    if Peek(x) == COMMA {
      var others, h;
      assert x == [COMMA] + x[1..];
      others, h, last := ItemsAreGrammatical(x[1..], nesting, acc + [value.value]);
      items := [sp] + others;
      gaps := MoreItems(s, sp, g, after, x[1..], others, h, last, r.rest);
      assert acc + [value.value] + DenoteItems(others) == acc + DenoteItems(items);
    } else {
      items, gaps, last := [sp], g, after;
      assert x == [RBRACKET] + r.rest;
      LastItem(s, sp, g, after, r.rest);
    }
  }

  lemma ParsedNamesAreDistinct(s: Bytes, nesting: nat)
    requires ParseValue(s, nesting).Parsed? && ParseValue(s, nesting).value.Obj?
    ensures Distinct(ParseValue(s, nesting).value.members)
  {
    hide ParseValue;
    Soundness.ParsedFits(s, nesting);
  }

  lemma {:induction false} ObjectIsGrammatical(s: Bytes, nesting: nat) returns (sp: Spelling, gaps: seq<Bytes>)
    requires ParseValue(s, nesting).Parsed? && Peek(SkipSpace(s)) == LBRACE
    ensures
      var r := ParseValue(s, nesting);
      r.value.Obj? && Grammatical(sp) && Denote(sp) == r.value && Spells(s, sp, gaps, r.rest)
    decreases |s|, 1
  {
    hide ParseValue, ParseMembers, SkipSpace, AllSpace, Weave, StringToken, AllLegal, StringValue, Distinct, DistinctNames;
    var r := ParseValue(s, nesting);
    var t := SkipSpace(s);
    var gap := SkippedGap(s);
    var body := t[1..];
    assert t == [LBRACE] + body;
    ParseOverGap(gap, t, nesting);
    UnfoldObject(body, nesting);
    var fields, inner, last := [], [], [];
    if Peek(SkipSpace(body)) == RBRACE {
      last := SkippedGap(body);
      assert SkipSpace(body) == [RBRACE] + r.rest;
      assert body == Weave([], []) + (last + [RBRACE] + r.rest) by {
        EmptyWeave();
      }
    } else {
      fields, inner, last := MembersAreGrammatical(body, nesting + 1, []);
      assert [] + DenoteFields(fields) == DenoteFields(fields);
    }
    ParsedNamesAreDistinct(s, nesting);
    DistinctNamesIff(fields);
    sp := Record(fields);
    gaps := BracketsAround(gap, LBRACE, inner, FieldTokens(fields), last, RBRACE, r.rest);
  }

  ghost predicate SpellsFields(s: Bytes, fields: seq<Field>, gaps: seq<Bytes>, last: Bytes, rest: Bytes) {
    && fields != [] && GrammaticalFields(fields)
    && |gaps| == |FieldTokens(fields)| && Gaps(gaps) && AllSpace(last)
    && s == Weave(gaps, FieldTokens(fields)) + (last + [RBRACE] + rest)
  }

  /** The gaps and the tokens of one member. */
  ghost predicate SpellsField(s: Bytes, f: Field, gaps: seq<Bytes>, rest: Bytes) {
    && AllLegal(f.name) && Grammatical(f.value)
    && |gaps| == |FieldTokens([f])| && Gaps(gaps) && s == Weave(gaps, FieldTokens([f])) + rest
  }

  lemma OneField(
    s: Bytes, before: Bytes, name: seq<Glyph>, colon: Bytes, value: Bytes, sp: Spelling, g: seq<Bytes>, rest: Bytes)
    returns (gaps: seq<Bytes>)
    requires AllLegal(name) && Grammatical(sp) && AllSpace(before) && AllSpace(colon) && Spells(value, sp, g, rest)
    requires s == before + (StringToken(name) + (colon + ([COLON] + value)))
    ensures SpellsField(s, Field(name, sp), gaps, rest)
  {
    hide Grammatical, Tokens, Weave, StringToken, AllLegal, AllSpace;
    gaps := [before, colon] + g;
    var fields := [Field(name, sp)];
    assert fields[1..] == [];
    assert FieldTokens(fields) == [StringToken(name), [COLON]] + Tokens(sp);
    WeaveField(before, StringToken(name), colon, g, Tokens(sp));
    FieldText(before, StringToken(name), colon, Weave(g, Tokens(sp)), rest);
  }

  lemma LastField(s: Bytes, f: Field, g: seq<Bytes>, after: Bytes, rest: Bytes)
    requires AllSpace(after) && SpellsField(s, f, g, after + ([RBRACE] + rest))
    ensures SpellsFields(s, [f], g, after, rest) && GrammaticalFields([f])
    ensures DenoteFields([f]) == [Member(StringValue(f.name), Denote(f.value))]
  {
    hide Grammatical, FieldTokens, Weave, StringValue, AllLegal;
    assert [f][1..] == [];
    assert after + ([RBRACE] + rest) == after + [RBRACE] + rest;
  }

  lemma MoreFields(
    s: Bytes, f: Field, g: seq<Bytes>, after: Bytes, next: Bytes,
    others: seq<Field>, h: seq<Bytes>, last: Bytes, rest: Bytes) returns (gaps: seq<Bytes>)
    requires AllSpace(after) && SpellsField(s, f, g, after + ([COMMA] + next))
    requires SpellsFields(next, others, h, last, rest)
    ensures SpellsFields(s, [f] + others, gaps, last, rest) && GrammaticalFields([f] + others)
    ensures DenoteFields([f] + others) == [Member(StringValue(f.name), Denote(f.value))] + DenoteFields(others)
  {
    hide Grammatical, Tokens, Weave, StringToken, StringValue, AllLegal;
    var fields := [f] + others;
    assert fields[1..] == others && [f][1..] == [];
    var tokens := FieldTokens([f]);
    assert tokens == [StringToken(f.name), [COLON]] + Tokens(f.value) by {
      assert FieldTokens([]) == [] && Separator(1) == [];
    }
    assert FieldTokens(fields) == tokens + [[COMMA]] + FieldTokens(others);
    gaps := JoinAfter(g, tokens, after, h, FieldTokens(others), last + [RBRACE] + rest);
  }

  /** The members read by the loop of `parse_object_value`, called on what follows the whitespace of `s`. */
  lemma {:induction false} MembersAreGrammatical(s: Bytes, nesting: nat, acc: seq<Member>)
    returns (fields: seq<Field>, gaps: seq<Bytes>, last: Bytes)
    requires ParseMembers(SkipSpace(s), nesting, acc).Parsed?
    ensures GrammaticalFields(fields)
    ensures
      var r := ParseMembers(SkipSpace(s), nesting, acc);
      SpellsFields(s, fields, gaps, last, r.rest) && r.value == Obj(acc + DenoteFields(fields))
    decreases |s|, 3
  {
    hide ParseValue, SkipSpace, AllSpace, Grammatical, Denote, DenoteFields, LoneMinus, Extends, GetQuoted, HasName;
    hide StringToken, AllLegal, StringValue, SpellsFields, SpellsField, Spells;
    var t := SkipSpace(s);
    var r := ParseMembers(t, nesting, acc);
    var before := SkippedGap(s);
    var read := GetQuoted(t).value;
    var name := QuotedIsStringToken(t);
    var colon := SkippedGap(read.rest);
    var u := SkipSpace(read.rest);
    assert u == [COLON] + u[1..];
    var value := ParseValue(u[1..], nesting);
    var x := SkipSpace(value.rest);
    NoLoneMinus(u[1..], nesting);
    var sp, v := ParsedIsGrammatical(u[1..], nesting);
    var f := Field(name, sp);
    var g := OneField(s, before, name, colon, u[1..], sp, v, value.rest);
    var after := SkippedGap(value.rest);
    var m := Member(read.value, value.value);
    if Peek(x) == COMMA {
      var others, h;
      assert x == [COMMA] + x[1..];
      others, h, last := MembersAreGrammatical(x[1..], nesting, acc + [m]);
      fields := [f] + others;
      gaps := MoreFields(s, f, g, after, x[1..], others, h, last, r.rest);
      assert acc + [m] + DenoteFields(others) == acc + DenoteFields(fields);
    } else {
      fields, gaps, last := [f], g, after;
      assert x == [RBRACE] + r.rest;
      LastField(s, f, g, after, r.rest);
    }
  }

  lemma FieldText(before: Bytes, name: Bytes, colon: Bytes, value: Bytes, rest: Bytes)
    ensures before + (name + (colon + ([COLON] + (value + rest))))
      == before + name + (colon + [COLON] + value) + rest
  {
  }

  // --- The language ---------------------------------------------------------------

  /** The texts the parser is meant to read as `v` up to `rest`, and the lone minus sign. */
  ghost predicate Reads(s: Bytes, v: Json, rest: Bytes) {
    || (v == Num(0.0) && rest == SkipSpace(s) && LoneMinus(rest))
    || (Ends(v, rest) &&
        exists sp, gaps :: Grammatical(sp) && Denote(sp) == v && Spells(s, sp, gaps, rest))
  }

  /** `parse_value` reads a value up to a rest exactly when the grammar does and the value fits the limit. */
  lemma ParsesExactlyTheGrammar(s: Bytes, nesting: nat, v: Json, rest: Bytes)
    ensures ParseValue(s, nesting) == Parsed(v, rest) <==> Reads(s, v, rest) && nesting + Height(v) <= MAX_NESTING
  {
    hide ParseValue, LoneMinus, SkipSpace, Grammatical, Tokens, Weave, Ends, Printable;
    if ParseValue(s, nesting) == Parsed(v, rest) {
      Soundness.ParsedFits(s, nesting);
      if LoneMinus(SkipSpace(s)) {
        LoneMinusStays(s, nesting);
      } else {
        var sp, gaps := ParsedIsGrammatical(s, nesting);
      }
    }
    if Reads(s, v, rest) && nesting + Height(v) <= MAX_NESTING {
      if v == Num(0.0) && rest == SkipSpace(s) && LoneMinus(rest) {
        LoneMinusStays(s, nesting);
      } else {
        var sp, gaps :| Grammatical(sp) && Denote(sp) == v && Spells(s, sp, gaps, rest);
        ParseWoven(sp, gaps, rest, nesting);
      }
    }
  }

  // --- Everything else is refused, or holds a number outside the model ------------

  /** `t` ends the text `s`. */
  ghost predicate Ending(t: Bytes, s: Bytes) {
    |t| <= |s| && s[|s| - |t|..] == t
  }

  lemma EndingOfEnding(t: Bytes, u: Bytes, s: Bytes)
    requires Ending(t, u) && Ending(u, s)
    ensures Ending(t, s)
  {
    assert s[|s| - |t|..] == s[|s| - |u|..][|u| - |t|..];
  }

  lemma EndingOfSum(a: Bytes, t: Bytes)
    ensures Ending(t, a + t)
  {
  }

  lemma SkipSpaceIsEnding(s: Bytes)
    ensures Ending(SkipSpace(s), s)
  {
    hide SkipSpace;
    var gap := SkippedGap(s);
    EndingOfSum(gap, SkipSpace(s));
  }

  /** Stepping over a byte and whitespace. */
  lemma StepIsEnding(x: Bytes, s: Bytes)
    requires x != [] && Ending(x, s)
    ensures Ending(SkipSpace(x[1..]), s)
  {
    hide SkipSpace;
    EndingOfSum([x[0]], x[1..]);
    assert [x[0]] + x[1..] == x;
    SkipSpaceIsEnding(x[1..]);
    EndingOfEnding(SkipSpace(x[1..]), x[1..], x);
    EndingOfEnding(SkipSpace(x[1..]), x, s);
  }

  lemma RestIsEnding(s: Bytes, nesting: nat)
    requires ParseValue(s, nesting).Parsed?
    ensures Ending(ParseValue(s, nesting).rest, s)
  {
    hide ParseValue, SkipSpace, LoneMinus, Tokens, Weave, Ends;
    if LoneMinus(SkipSpace(s)) {
      WithinLimit(s, nesting);
      LoneMinusStays(s, nesting);
      SkipSpaceIsEnding(s);
    } else {
      var sp, gaps := ParsedIsGrammatical(s, nesting);
      EndingOfSum(Weave(gaps, Tokens(sp)), ParseValue(s, nesting).rest);
    }
  }

  /** A number outside the model stands at the front of a text. */
  ghost predicate AtForeign(t: Bytes) {
    t != [] && (t[0] == MINUS || IsDigit(t[0])) && ReadNumber(t).Unmodelled?
  }

  /** A text that is neither read nor refused holds a number outside the model. */
  lemma {:induction false} ForeignHasNumber(s: Bytes, nesting: nat) returns (t: Bytes)
    requires ParseValue(s, nesting) == Foreign
    ensures Ending(t, s) && AtForeign(t)
    decreases |s|, 2
  {
    hide SkipSpace, ReadNumber, GetQuoted, ParseItems, ParseMembers, Ending, AtForeign;
    var u := SkipSpace(s);
    SkipSpaceIsEnding(s);
    if Peek(u) == LBRACKET || Peek(u) == LBRACE {
      StepIsEnding(u, s);
      var v := SkipSpace(u[1..]);
      if Peek(u) == LBRACKET {
        t := ForeignItems(v, nesting + 1, []);
      } else {
        t := ForeignMembers(v, nesting + 1, []);
      }
      EndingOfEnding(t, v, s);
    } else {
      t := u;
      ForeignScalar(u, s, nesting);
    }
  }

  lemma ForeignScalar(u: Bytes, s: Bytes, nesting: nat)
    requires u == SkipSpace(s) && ParseValue(s, nesting) == Foreign && Peek(u) != LBRACKET && Peek(u) != LBRACE
    ensures AtForeign(u)
  {
    hide SkipSpace, ReadNumber, GetQuoted;
  }

  lemma {:induction false} ForeignItems(s: Bytes, nesting: nat, items: seq<Json>) returns (t: Bytes)
    requires ParseItems(s, nesting, items) == Foreign
    ensures Ending(t, s) && AtForeign(t)
    decreases |s|, 3
  {
    hide SkipSpace, ParseValue, Ending, AtForeign;
    var value := ParseValue(s, nesting);
    if value == Foreign {
      t := ForeignHasNumber(s, nesting);
    } else {
      RestIsEnding(s, nesting);
      var x := SkipSpace(value.rest);
      SkipSpaceIsEnding(value.rest);
      EndingOfEnding(x, value.rest, s);
      StepIsEnding(x, s);
      t := ForeignItems(SkipSpace(x[1..]), nesting, items + [value.value]);
      EndingOfEnding(t, SkipSpace(x[1..]), s);
    }
  }

  lemma {:induction false} ForeignMembers(s: Bytes, nesting: nat, members: seq<Member>) returns (t: Bytes)
    requires ParseMembers(s, nesting, members) == Foreign
    ensures Ending(t, s) && AtForeign(t)
    decreases |s|, 0
  {
    hide SkipSpace, ParseValue, Ending, AtForeign, GetQuoted, HasName;
    var read := GetQuoted(s).value;
    var gs := QuotedIsStringToken(s);
    EndingOfSum(StringToken(gs), read.rest);
    var u := SkipSpace(read.rest);
    SkipSpaceIsEnding(read.rest);
    EndingOfEnding(u, read.rest, s);
    var w := u[1..];
    EndingOfSum([u[0]], w);
    assert [u[0]] + w == u;
    EndingOfEnding(w, u, s);
    var value := ParseValue(w, nesting);
    if value == Foreign {
      t := ForeignHasNumber(w, nesting);
      EndingOfEnding(t, w, s);
    } else {
      RestIsEnding(w, nesting);
      EndingOfEnding(value.rest, w, s);
      var x := SkipSpace(value.rest);
      SkipSpaceIsEnding(value.rest);
      EndingOfEnding(x, value.rest, s);
      StepIsEnding(x, s);
      t := ForeignMembers(SkipSpace(x[1..]), nesting, members + [Member(read.value, value.value)]);
      EndingOfEnding(t, SkipSpace(x[1..]), s);
    }
  }

  /** The grammar is unambiguous: two spellings of one text within the limit denote one value. */
  lemma {:induction false} Unambiguous(sp: Spelling, gaps: seq<Bytes>, sq: Spelling, gaps': seq<Bytes>)
    requires Grammatical(sp) && |gaps| == |Tokens(sp)| && Gaps(gaps)
    requires Grammatical(sq) && |gaps'| == |Tokens(sq)| && Gaps(gaps')
    requires Weave(gaps, Tokens(sp)) == Weave(gaps', Tokens(sq))
    requires Height(Denote(sp)) <= MAX_NESTING
    ensures Denote(sp) == Denote(sq)
  {
    hide ParseValue, Grammatical, Tokens, Weave;
    ParseWoven(sp, gaps, [], 0);
    ParseWoven(sq, gaps', [], 0);
  }
}
