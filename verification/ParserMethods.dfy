/**
 The parser of lib/parson.c as it runs: mutually recursive procedures that advance a cursor
 over a C string, with loops that collect elements. Each agrees with its function in `Parser`,
 terminates on every text, and never reads beyond the terminating NUL.
 */
module ParserMethods {
  import opened Bytes
  import opened Json
  import opened Strings
  import opened StringReader
  import opened Numbers
  import opened Parser

  /** What a parser procedure returns: a value, its NULL, or a number outside the model. */
  datatype Outcome = Value(v: Json) | Failed | Unknown

  /** The outcome and the cursor are those of the specification. */
  ghost predicate Agrees(text: Bytes, r: Outcome, p: nat, spec: Parse)
    requires IsCText(text)
  {
    match spec
    case Parsed(v, rest) => r == Value(v) && p < |text| && From(text, p) == rest
    case Rejected => r == Failed
    case Foreign => r == Unknown
  }

  /** The SKIP_WHITESPACES macro. */
  method SkipWhitespaces(text: Bytes, p: nat) returns (p': nat)
    requires IsCText(text) && p < |text|
    ensures p <= p' < |text|
    ensures From(text, p') == SkipSpace(From(text, p))
  {
    hide NulFree, From;
    p' := p;
    while IsSpace(text[p'])
      invariant p <= p' < |text|
      invariant SkipSpace(From(text, p')) == SkipSpace(From(text, p))
      decreases |text| - p'
    {
      FromDrop(text, p', 1);
      p' := p' + 1;
    }
  }

  /** `strncmp` of a token with the text at the cursor. */
  method StartsWith(text: Bytes, p: nat, token: Bytes) returns (ok: bool)
    requires IsCText(text) && p < |text| && NulFree(token)
    ensures ok <==> token <= From(text, p)
    ensures ok ==> p + |token| < |text|
  {
    var i := 0;
    while i < |token| && text[p + i] == token[i]
      invariant 0 <= i <= |token| && p + i < |text|
      invariant text[p..p + i] == token[..i]
      decreases |token| - i
    {
      assert text[p..p + i + 1] == token[..i + 1];
      i := i + 1;
    }
    FromTake(text, p, 0, i);
    if i < |token| {
      FromDrop(text, p, i);
      return false;
    }
    return true;
  }

  method ParseStringValue(text: Bytes, p: nat) returns (r: Outcome, p': nat)
    requires IsCText(text) && p < |text|
    ensures Agrees(text, r, p', ParseString(From(text, p)))
  {
    var newString;
    newString, p' := GetQuotedString(text, p);
    if newString == null {
      return Failed, p';
    }
    return Value(Str(CString(newString[..]))), p';
  }

  method ParseBooleanValue(text: Bytes, p: nat) returns (r: Outcome, p': nat)
    requires IsCText(text) && p < |text|
    ensures Agrees(text, r, p', ParseBoolean(From(text, p)))
  {
    var isTrue := StartsWith(text, p, TRUE);
    if isTrue {
      FromDrop(text, p, 4);
      return Value(Bool(true)), p + 4;
    }
    var isFalse := StartsWith(text, p, FALSE);
    if isFalse {
      FromDrop(text, p, 5);
      return Value(Bool(false)), p + 5;
    }
    return Failed, p;
  }

  method ParseNullValue(text: Bytes, p: nat) returns (r: Outcome, p': nat)
    requires IsCText(text) && p < |text|
    ensures Agrees(text, r, p', ParseNull(From(text, p)))
  {
    var isNull := StartsWith(text, p, NULL);
    if isNull {
      FromDrop(text, p, 4);
      return Value(Json.Null), p + 4;
    }
    return Failed, p;
  }

  method ParseNumberValue(text: Bytes, p: nat) returns (r: Outcome, p': nat)
    requires IsCText(text) && p < |text| && (text[p] == MINUS || IsDigit(text[p]))
    ensures Agrees(text, r, p', ParseNumber(From(text, p)))
  {
    hide Strtod, IsDecimal, NulFree;
    var s := text[p..|text| - 1];
    assert s == From(text, p);
    var token := Strtod(s);
    var decimal := CheckDecimal(s[..token.len]);
    if !decimal || token.value.NotFinite? {
      return Failed, p;
    }
    if token.value.Other? {
      return Unknown, p;
    }
    FromDrop(text, p, token.len);
    return Value(Num(token.value.n as real)), p + token.len;
  }

  /** `parse_value`. */
  method ParseValueAt(text: Bytes, p: nat, nesting: nat) returns (r: Outcome, p': nat)
    requires IsCText(text) && p < |text|
    ensures Agrees(text, r, p', ParseValue(From(text, p), nesting))
    ensures r.Value? ==> p <= p'
    decreases |text| - p, 1
  {
    hide NulFree, From, ReadNumber, GetQuoted, ParseMembers, ParseItems;
    if nesting > MAX_NESTING {
      return Failed, p;
    }
    p' := SkipWhitespaces(text, p);
    var c := text[p'];
    if c == LBRACE {
      r, p' := ParseObjectValue(text, p', nesting + 1);
    } else if c == LBRACKET {
      r, p' := ParseArrayValue(text, p', nesting + 1);
    } else if c == QUOTE {
      r, p' := ParseStringValue(text, p');
    } else if c == LOWER_F || c == LOWER_T {
      r, p' := ParseBooleanValue(text, p');
    } else if c == MINUS || IsDigit(c) {
      r, p' := ParseNumberValue(text, p');
    } else if c == LOWER_N {
      r, p' := ParseNullValue(text, p');
    } else {
      r := Failed;
    }
  }

  lemma NothingLeft(nesting: nat, items: seq<Json>)
    ensures ParseItems([], nesting, items) == Rejected
  {
  }

  /** `parse_array_value`. */
  method ParseArrayValue(text: Bytes, p: nat, nesting: nat) returns (r: Outcome, p': nat)
    requires nesting <= MAX_NESTING + 1
    requires IsCText(text) && p < |text| && text[p] == LBRACKET
    ensures Agrees(text, r, p', ParseArray(From(text, p), nesting))
    decreases |text| - p, 0
  {
    hide NulFree, From, ParseValue, SkipSpace;
    ghost var spec := ParseArray(From(text, p), nesting);
    var items: seq<Json> := [];
    FromDrop(text, p, 1);
    p' := p + 1;
    p' := SkipWhitespaces(text, p');
    if text[p'] == RBRACKET {
      FromDrop(text, p', 1);
      return Value(Arr([])), p' + 1;
    }
    while text[p'] != 0
      invariant p < p' < |text|
      invariant spec == ParseItems(From(text, p'), nesting, items)
      decreases |text| - p'
    {
      var element;
      element, p' := ParseValueAt(text, p', nesting);
      if !element.Value? {
        return element, p';
      }
      items := items + [element.v];
      p' := SkipWhitespaces(text, p');
      if text[p'] != COMMA {
        break;
      }
      FromDrop(text, p', 1);
      p' := p' + 1;
      p' := SkipWhitespaces(text, p');
    }
    NothingLeft(nesting, items);
    SkipSpaceStays(From(text, p'));
    p' := SkipWhitespaces(text, p');
    if text[p'] != RBRACKET {
      return Failed, p';
    }
    FromDrop(text, p', 1);
    return Value(Arr(items)), p' + 1;
  }

  lemma NoneLeft(nesting: nat, members: seq<Member>)
    ensures ParseMembers([], nesting, members) == Rejected
  {
  }

  /** `parse_object_value`; `json_object_add` refuses a name that is already present. */
  method ParseObjectValue(text: Bytes, p: nat, nesting: nat) returns (r: Outcome, p': nat)
    requires nesting <= MAX_NESTING + 1
    requires IsCText(text) && p < |text| && text[p] == LBRACE
    ensures Agrees(text, r, p', ParseObject(From(text, p), nesting))
    decreases |text| - p, 0
  {
    hide NulFree, From, ParseValue, GetQuoted, HasName, SkipSpace;
    ghost var spec := ParseObject(From(text, p), nesting);
    var members: seq<Member> := [];
    FromDrop(text, p, 1);
    p' := p + 1;
    p' := SkipWhitespaces(text, p');
    if text[p'] == RBRACE {
      FromDrop(text, p', 1);
      return Value(Obj([])), p' + 1;
    }
    while text[p'] != 0
      invariant p < p' < |text|
      invariant spec == ParseMembers(From(text, p'), nesting, members)
      decreases |text| - p'
    {
      var newKey;
      newKey, p' := GetQuotedString(text, p');
      if newKey == null {
        return Failed, p';
      }
      var name := CString(newKey[..]);
      p' := SkipWhitespaces(text, p');
      if text[p'] != COLON {
        return Failed, p';
      }
      FromDrop(text, p', 1);
      p' := p' + 1;
      var value;
      value, p' := ParseValueAt(text, p', nesting);
      if !value.Value? {
        return value, p';
      }
      if HasName(members, name) {
        return Failed, p';
      }
      members := members + [Member(name, value.v)];
      p' := SkipWhitespaces(text, p');
      if text[p'] != COMMA {
        break;
      }
      FromDrop(text, p', 1);
      p' := p' + 1;
      p' := SkipWhitespaces(text, p');
    }
    NoneLeft(nesting, members);
    SkipSpaceStays(From(text, p'));
    p' := SkipWhitespaces(text, p');
    if text[p'] != RBRACE {
      return Failed, p';
    }
    FromDrop(text, p', 1);
    return Value(Obj(members)), p' + 1;
  }

  /** `json_parse_string` on a C string. */
  method JsonParseString(text: Bytes) returns (r: Outcome)
    requires IsCText(text)
    ensures match ParseText(text[..|text| - 1])
      case Parsed(v, _) => r == Value(v)
      case Rejected => r == Failed
      case Foreign => r == Unknown
  {
    ghost var s := text[..|text| - 1];
    var p := 0;
    assert From(text, 0) == s;
    if text[0] == 0xEF && text[1] == 0xBB && text[2] == 0xBF {
      FromDrop(text, 0, 3);
      p := 3;
    }
    var p';
    r, p' := ParseValueAt(text, p, 0);
  }
}
