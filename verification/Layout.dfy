/**
 The grammar of JSON texts (section 2 of RFC 8259) as token sequences with whitespace
 between the tokens, what each of them denotes, and the one text the serializer of
 lib/parson.c writes for a value in each style.
 */
module Layout {
  import opened Bytes
  import opened Json
  import opened Strings
  import opened Glyphs
  import opened Numbers
  import opened Parser

  // --- The grammar ----------------------------------------------------------------

  /** A value as it is spelled, up to whitespace. Numbers are plain decimal integers. */
  datatype Spelling =
    | Keyword(v: Json)
    | Decimal(n: int)
    | Literal(glyphs: seq<Glyph>)
    | List(items: seq<Spelling>)
    | Record(fields: seq<Field>)

  datatype Field = Field(name: seq<Glyph>, value: Spelling)

  /** The spellings the grammar allows, with distinct names in every object. */
  predicate Grammatical(sp: Spelling) {
    match sp
    case Keyword(v) => v.Null? || v.Bool?
    case Decimal(n) => -MAX_EXACT <= n <= MAX_EXACT
    case Literal(gs) => AllLegal(gs)
    case List(items) => GrammaticalItems(items)
    case Record(fields) => GrammaticalFields(fields) && DistinctNames(fields)
  }

  predicate GrammaticalItems(items: seq<Spelling>) {
    forall i :: 0 <= i < |items| ==> Grammatical(items[i])
  }

  predicate GrammaticalFields(fields: seq<Field>) {
    forall i :: 0 <= i < |fields| ==> AllLegal(fields[i].name) && Grammatical(fields[i].value)
  }

  predicate DistinctNames(fields: seq<Field>)
    requires forall i :: 0 <= i < |fields| ==> AllLegal(fields[i].name)
  {
    forall i, j :: 0 <= i < j < |fields| ==> StringValue(fields[i].name) != StringValue(fields[j].name)
  }

  /** The value a spelling stands for. */
  function Denote(sp: Spelling): Json
    requires Grammatical(sp)
  {
    match sp
    case Keyword(v) => v
    case Decimal(n) => Num(n as real)
    case Literal(gs) => Str(StringValue(gs))
    case List(items) => Arr(DenoteItems(items))
    case Record(fields) => Obj(DenoteFields(fields))
  }

  function DenoteItems(items: seq<Spelling>): seq<Json>
    requires GrammaticalItems(items)
  {
    if items == [] then [] else [Denote(items[0])] + DenoteItems(items[1..])
  }

  function DenoteFields(fields: seq<Field>): seq<Member>
    requires GrammaticalFields(fields)
  {
    if fields == [] then []
    else [Member(StringValue(fields[0].name), Denote(fields[0].value))] + DenoteFields(fields[1..])
  }

  lemma {:induction false} DenoteFieldsAt(fields: seq<Field>)
    requires GrammaticalFields(fields)
    ensures |DenoteFields(fields)| == |fields|
    ensures forall i :: 0 <= i < |fields| ==> DenoteFields(fields)[i].name == StringValue(fields[i].name)
  {
    hide Grammatical;
    if fields != [] {
      DenoteFieldsAt(fields[1..]);
      assert forall i :: 0 < i < |fields| ==> DenoteFields(fields)[i] == DenoteFields(fields[1..])[i - 1];
    }
  }

  /** An object's names are distinct as spelled exactly when they are in the value. */
  lemma {:induction false} DistinctNamesIff(fields: seq<Field>)
    requires GrammaticalFields(fields)
    ensures DistinctNames(fields) <==> Distinct(DenoteFields(fields))
  {
    hide Grammatical, StringValue;
    DenoteFieldsAt(fields);
  }

  // --- Tokens and gaps ------------------------------------------------------------

  function Tokens(sp: Spelling): (r: seq<Bytes>)
    ensures |r| >= 1
  {
    match sp
    case Keyword(v) => [if v == Bool(true) then TRUE else if v == Bool(false) then FALSE else NULL]
    case Decimal(n) => [DecimalText(n)]
    case Literal(gs) => [StringToken(gs)]
    case List(items) => [[LBRACKET]] + ItemTokens(items) + [[RBRACKET]]
    case Record(fields) => [[LBRACE]] + FieldTokens(fields) + [[RBRACE]]
  }

  function ItemTokens(items: seq<Spelling>): seq<Bytes> {
    if items == [] then []
    else Tokens(items[0]) + Separator(|items|) + ItemTokens(items[1..])
  }

  function FieldTokens(fields: seq<Field>): seq<Bytes> {
    if fields == [] then []
    else
      [StringToken(fields[0].name), [COLON]] + Tokens(fields[0].value) + Separator(|fields|)
      + FieldTokens(fields[1..])
  }

  /** A comma between an element and its successor. */
  function Separator(remaining: nat): seq<Bytes> {
    if remaining > 1 then [[COMMA]] else []
  }

  ghost predicate Gaps(gaps: seq<Bytes>) {
    forall i :: 0 <= i < |gaps| ==> AllSpace(gaps[i])
  }

  /** The tokens with a gap in front of each. */
  function Weave(gaps: seq<Bytes>, tokens: seq<Bytes>): Bytes
    requires |gaps| == |tokens|
  {
    if gaps == [] then [] else gaps[0] + tokens[0] + Weave(gaps[1..], tokens[1..])
  }

  lemma {:induction false} WeaveConcat(g1: seq<Bytes>, t1: seq<Bytes>, g2: seq<Bytes>, t2: seq<Bytes>)
    requires |g1| == |t1| && |g2| == |t2|
    ensures Weave(g1 + g2, t1 + t2) == Weave(g1, t1) + Weave(g2, t2)
  {
    if g1 == [] {
      assert g1 + g2 == g2 && t1 + t2 == t2;
    } else {
      assert (g1 + g2)[1..] == g1[1..] + g2 && (t1 + t2)[1..] == t1[1..] + t2;
      WeaveConcat(g1[1..], t1[1..], g2, t2);
    }
  }

  /** Splitting a woven text at a token boundary. */
  lemma {:induction false} WeaveSplit(gaps: seq<Bytes>, t1: seq<Bytes>, t2: seq<Bytes>)
    requires |gaps| == |t1| + |t2| && Gaps(gaps)
    ensures Weave(gaps, t1 + t2) == Weave(gaps[..|t1|], t1) + Weave(gaps[|t1|..], t2)
    ensures Gaps(gaps[..|t1|]) && Gaps(gaps[|t1|..])
  {
    hide Weave, AllSpace;
    assert gaps == gaps[..|t1|] + gaps[|t1|..];
    WeaveConcat(gaps[..|t1|], t1, gaps[|t1|..], t2);
  }

  lemma WeaveOne(gaps: seq<Bytes>, token: Bytes)
    requires |gaps| == 1
    ensures Weave(gaps, [token]) == gaps[0] + token
  {
    assert Weave(gaps[1..], [token][1..]) == [];
  }

  // --- The serializer's text ------------------------------------------------------

  /** `append_indent`: four spaces a level. */
  function Indent(level: nat): Bytes {
    if level == 0 then [] else [SPACE, SPACE, SPACE, SPACE] + Indent(level - 1)
  }

  function When(pretty: bool, s: Bytes): Bytes {
    if pretty then s else []
  }

  function Comma(remaining: nat): Bytes {
    if remaining > 1 then [COMMA] else []
  }

  /** What `json_serialize_to_buffer_r` writes. */
  function Text(v: Json, level: nat, pretty: bool): Bytes
    decreases v, 0
  {
    match v
    case Null => NULL
    case Bool(b) => if b then TRUE else FALSE
    case Num(x) => DecimalText(x.Floor)
    case Str(s) => Quoted(s)
    case Arr(items) =>
      if items == [] then [LBRACKET, RBRACKET]
      else
        [LBRACKET] + When(pretty, [NEWLINE]) + ItemsText(items, level, pretty)
        + When(pretty, Indent(level)) + [RBRACKET]
    case Obj(members) =>
      if members == [] then [LBRACE, RBRACE]
      else
        [LBRACE] + When(pretty, [NEWLINE]) + MembersText(members, level, pretty)
        + When(pretty, Indent(level)) + [RBRACE]
  }

  /** One turn of the array loop, with `remaining` elements to go. */
  function ItemText(item: Json, remaining: nat, level: nat, pretty: bool): Bytes
    decreases item, 1
  {
    When(pretty, Indent(level + 1)) + Text(item, level + 1, pretty) + Comma(remaining) + When(pretty, [NEWLINE])
  }

  function ItemsText(items: seq<Json>, level: nat, pretty: bool): Bytes
    decreases items, 0
  {
    if items == [] then []
    else ItemText(items[0], |items|, level, pretty) + ItemsText(items[1..], level, pretty)
  }

  /** One turn of the object loop, with `remaining` members to go. */
  function MemberText(member: Member, remaining: nat, level: nat, pretty: bool): Bytes
    decreases member, 0
  {
    When(pretty, Indent(level + 1)) + Quoted(member.name) + [COLON] + When(pretty, [SPACE])
    + Text(member.value, level + 1, pretty) + Comma(remaining) + When(pretty, [NEWLINE])
  }

  function MembersText(members: seq<Member>, level: nat, pretty: bool): Bytes
    decreases members, 0
  {
    if members == [] then []
    else MemberText(members[0], |members|, level, pretty) + MembersText(members[1..], level, pretty)
  }

  /** The serializer's spelling of a value. */
  function Canonical(v: Json): Spelling {
    match v
    case Num(x) => Decimal(x.Floor)
    case Str(s) => Literal(CanonicalGlyphs(s))
    case Arr(items) => List(CanonicalItems(items))
    case Obj(members) => Record(CanonicalFields(members))
    case _ => Keyword(v)
  }

  function CanonicalItems(items: seq<Json>): (r: seq<Spelling>)
    ensures |r| == |items|
  {
    if items == [] then [] else [Canonical(items[0])] + CanonicalItems(items[1..])
  }

  function CanonicalFields(members: seq<Member>): (r: seq<Field>)
    ensures |r| == |members|
  {
    if members == [] then []
    else [Field(CanonicalGlyphs(members[0].name), Canonical(members[0].value))] + CanonicalFields(members[1..])
  }

  /** The serializer's spelling of a printable value is grammatical and denotes the value. */
  lemma {:induction false} CanonicalDenotes(v: Json)
    requires Printable(v)
    ensures Grammatical(Canonical(v)) && Denote(Canonical(v)) == v
    decreases v, 1
  {
    match v
    case Str(s) => QuotedIsCanonical(s);
    case Arr(items) => CanonicalItemsDenote(items);
    case Obj(members) =>
      CanonicalFieldsDenote(members);
      DistinctNamesIff(CanonicalFields(members));
    case _ =>
  }

  lemma {:induction false} CanonicalItemsDenote(items: seq<Json>)
    requires forall i :: 0 <= i < |items| ==> Printable(items[i])
    ensures GrammaticalItems(CanonicalItems(items)) && DenoteItems(CanonicalItems(items)) == items
    decreases items, 0
  {
    hide Printable, Grammatical;
    if items != [] {
      var c := CanonicalItems(items);
      CanonicalDenotes(items[0]);
      CanonicalItemsDenote(items[1..]);
      assert c[0] == Canonical(items[0]) && c[1..] == CanonicalItems(items[1..]);
      assert forall i :: 0 < i < |c| ==> c[i] == c[1..][i - 1];
    }
  }

  lemma {:induction false} CanonicalFieldsDenote(members: seq<Member>)
    requires forall i :: 0 <= i < |members| ==> NulFree(members[i].name) && Printable(members[i].value)
    ensures GrammaticalFields(CanonicalFields(members)) && DenoteFields(CanonicalFields(members)) == members
    decreases members, 0
  {
    hide Printable, Grammatical, NulFree, StringValue, AllLegal, CanonicalGlyphs;
    if members != [] {
      var c := CanonicalFields(members);
      QuotedIsCanonical(members[0].name);
      CanonicalDenotes(members[0].value);
      CanonicalFieldsDenote(members[1..]);
      assert c[0] == Field(CanonicalGlyphs(members[0].name), Canonical(members[0].value));
      assert c[1..] == CanonicalFields(members[1..]);
      assert forall i :: 0 < i < |c| ==> c[i] == c[1..][i - 1];
      assert members == [members[0]] + members[1..];
    }
  }
}
