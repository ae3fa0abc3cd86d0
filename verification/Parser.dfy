/**
 The recursive-descent parser of lib/parson.c as functions from the remaining text to a
 value and the text left over. `ParserMethods` proves the cursor-advancing code against them.
 */
module Parser {
  import opened Bytes
  import opened Json
  import opened Strings
  import opened Numbers

  const MAX_NESTING: nat := 2048

  const TRUE: Bytes := [0x74, 0x72, 0x75, 0x65]         // true
  const FALSE: Bytes := [0x66, 0x61, 0x6C, 0x73, 0x65]  // false
  const NULL: Bytes := [0x6E, 0x75, 0x6C, 0x6C]         // null

  lemma KeywordsSpelled()
    ensures TRUE == Ascii("true") && FALSE == Ascii("false") && NULL == Ascii("null")
  {
  }

  /**
   The outcome of a parser function: a value and the rest of the text; its NULL; or, for
   a text with a number outside the modelled ones, unknown.
   */
  datatype Parse =
    | Parsed(value: Json, rest: Bytes)
    | Rejected
    | Foreign

  function ParseValue(s: Bytes, nesting: nat): (r: Parse)
    ensures r.Parsed? ==> |r.rest| <= |s|
    decreases |s|, 2
  {
    if nesting > MAX_NESTING then Rejected
    else
      var t := SkipSpace(s);
      if Peek(t) == LBRACE then ParseObject(t, nesting + 1)
      else if Peek(t) == LBRACKET then ParseArray(t, nesting + 1)
      else if Peek(t) == QUOTE then ParseString(t)
      else if Peek(t) == LOWER_F || Peek(t) == LOWER_T then ParseBoolean(t)
      else if Peek(t) == MINUS || IsDigit(Peek(t)) then ParseNumber(t)
      else if Peek(t) == LOWER_N then ParseNull(t)
      else Rejected
  }

  function ParseObject(s: Bytes, nesting: nat): (r: Parse)
    requires Peek(s) == LBRACE
    ensures r.Parsed? ==> |r.rest| < |s|
    decreases |s|, 1
  {
    var t := SkipSpace(s[1..]);
    if Peek(t) == RBRACE then Parsed(Obj([]), t[1..])
    else ParseMembers(t, nesting, [])
  }

  /** The loop of `parse_object_value`, with the members added so far. */
  function ParseMembers(s: Bytes, nesting: nat, members: seq<Member>): (r: Parse)
    ensures r.Parsed? ==> |r.rest| < |s|
    decreases |s|, 0
  {
    match GetQuoted(s)
    case None => Rejected
    case Some(Read(name, t)) =>
      var u := SkipSpace(t);
      if Peek(u) != COLON then Rejected
      else
        match ParseValue(u[1..], nesting)
        case Rejected => Rejected
        case Foreign => Foreign
        case Parsed(value, w) =>
          if HasName(members, name) then Rejected
          else
            var members' := members + [Member(name, value)];
            var x := SkipSpace(w);
            if Peek(x) == COMMA then ParseMembers(SkipSpace(x[1..]), nesting, members')
            else if Peek(x) == RBRACE then Parsed(Obj(members'), x[1..])
            else Rejected
  }

  function ParseArray(s: Bytes, nesting: nat): (r: Parse)
    requires Peek(s) == LBRACKET
    ensures r.Parsed? ==> |r.rest| < |s|
    decreases |s|, 1
  {
    var t := SkipSpace(s[1..]);
    if Peek(t) == RBRACKET then Parsed(Arr([]), t[1..])
    else ParseItems(t, nesting, [])
  }

  /** The loop of `parse_array_value`; only its comma is sure to make progress. */
  function ParseItems(s: Bytes, nesting: nat, items: seq<Json>): (r: Parse)
    ensures r.Parsed? ==> |r.rest| < |s|
    decreases |s|, 3
  {
    match ParseValue(s, nesting)
    case Rejected => Rejected
    case Foreign => Foreign
    case Parsed(value, w) =>
      var items' := items + [value];
      var x := SkipSpace(w);
      if Peek(x) == COMMA then ParseItems(SkipSpace(x[1..]), nesting, items')
      else if Peek(x) == RBRACKET then Parsed(Arr(items'), x[1..])
      else Rejected
  }

  function ParseString(s: Bytes): (r: Parse)
    ensures r.Parsed? ==> |r.rest| < |s|
  {
    match GetQuoted(s)
    case None => Rejected
    case Some(Read(value, rest)) => Parsed(Str(value), rest)
  }

  function ParseBoolean(s: Bytes): (r: Parse)
    ensures r.Parsed? ==> |r.rest| < |s|
  {
    if TRUE <= s then Parsed(Bool(true), s[4..])
    else if FALSE <= s then Parsed(Bool(false), s[5..])
    else Rejected
  }

  function ParseNumber(s: Bytes): (r: Parse)
    requires Peek(s) == MINUS || IsDigit(Peek(s))
    ensures r.Parsed? ==> |r.rest| <= |s|
  {
    match ReadNumber(s)
    case Good(n, rest) => Parsed(Num(n as real), rest)
    case Bad => Rejected
    case Unmodelled => Foreign
  }

  function ParseNull(s: Bytes): (r: Parse)
    ensures r.Parsed? ==> |r.rest| < |s|
  {
    if NULL <= s then Parsed(Json.Null, s[4..]) else Rejected
  }

  /** `json_parse_string`: skips a byte order mark, parses a prefix and ignores what follows. */
  function ParseText(s: Bytes): Parse {
    if |s| >= 3 && s[0] == 0xEF && s[1] == 0xBB && s[2] == 0xBF then ParseValue(s[3..], 0)
    else ParseValue(s, 0)
  }
}
