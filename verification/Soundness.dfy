/**
 What the parser can return: values that print and parse back, within the nesting limit,
 and whose strings are well-formed UTF-8 whenever the text is.
 */
module Soundness {
  import opened Bytes
  import opened Json
  import opened Utf8
  import opened Strings
  import opened Numbers
  import opened Parser
  import opened Layout
  import opened RoundTrip

  // --- Every parsed value is printable and fits -----------------------------------

  ghost predicate Fits(v: Json, nesting: nat) {
    Printable(v) && nesting + Height(v) <= MAX_NESTING
  }

  ghost predicate ItemsFit(items: seq<Json>, nesting: nat) {
    forall i :: 0 <= i < |items| ==> Fits(items[i], nesting)
  }

  ghost predicate MembersFit(members: seq<Member>, nesting: nat) {
    && Distinct(members)
    && forall i :: 0 <= i < |members| ==> NulFree(members[i].name) && Fits(members[i].value, nesting)
  }

  lemma {:induction false} ItemsHeightFits(items: seq<Json>, nesting: nat)
    requires ItemsFit(items, nesting) && 0 < nesting <= MAX_NESTING + 1
    ensures nesting - 1 + ItemsHeight(items) <= MAX_NESTING
  {
    if items != [] {
      ItemsHeightFits(items[1..], nesting);
    }
  }

  lemma {:induction false} MembersHeightFits(members: seq<Member>, nesting: nat)
    requires MembersFit(members, nesting) && 0 < nesting <= MAX_NESTING + 1
    ensures nesting - 1 + MembersHeight(members) <= MAX_NESTING
  {
    if members != [] {
      MembersHeightFits(members[1..], nesting);
    }
  }

  lemma NumberFits(s: Bytes, nesting: nat)
    requires Peek(s) == MINUS || IsDigit(Peek(s))
    requires ParseNumber(s).Parsed? && nesting <= MAX_NESTING
    ensures Fits(ParseNumber(s).value, nesting)
  {
    hide Scan, IsDecimal;
    assert -MAX_EXACT <= ReadNumber(s).n <= MAX_EXACT by {
      ScanBound(s);
      ScanBound(s[1..]);
    }
  }

  lemma ScanBound(u: Bytes)
    ensures Scan(u).value.Integer? ==> 0 <= Scan(u).value.n <= MAX_EXACT
  {
    hide HexLength, ExponentLength, FractionLength, StartsWord;
  }

  /** A parsed value is printable and, from the level it was parsed at, within the limit. */
  lemma {:induction false} ParsedFits(s: Bytes, nesting: nat)
    requires ParseValue(s, nesting).Parsed?
    ensures Fits(ParseValue(s, nesting).value, nesting)
    decreases |s|, 2
  {
    hide ReadNumber, GetQuoted, ParseItems, ParseMembers;
    var t := SkipSpace(s);
    if Peek(t) == LBRACE {
      var u := SkipSpace(t[1..]);
      if Peek(u) != RBRACE {
        ParsedMembersFit(u, nesting + 1, []);
      }
    } else if Peek(t) == LBRACKET {
      var u := SkipSpace(t[1..]);
      if Peek(u) != RBRACKET {
        ParsedItemsFit(u, nesting + 1, []);
      }
    } else if Peek(t) == MINUS || IsDigit(Peek(t)) {
      NumberFits(t, nesting);
    }
  }

  lemma {:induction false} ParsedItemsFit(s: Bytes, nesting: nat, items: seq<Json>)
    requires ItemsFit(items, nesting) && 0 < nesting <= MAX_NESTING + 1
    requires ParseItems(s, nesting, items).Parsed?
    ensures Fits(ParseItems(s, nesting, items).value, nesting - 1)
    decreases |s|, 3
  {
    hide ParseValue, Fits;
    ParsedFits(s, nesting);
    var Parsed(value, w) := ParseValue(s, nesting);
    var x := SkipSpace(w);
    if Peek(x) == COMMA {
      ParsedItemsFit(SkipSpace(x[1..]), nesting, items + [value]);
    } else {
      ArrayFits(items + [value], nesting);
    }
  }

  lemma ArrayFits(items: seq<Json>, nesting: nat)
    requires ItemsFit(items, nesting) && 0 < nesting <= MAX_NESTING + 1
    ensures Fits(Arr(items), nesting - 1)
  {
    ItemsHeightFits(items, nesting);
  }

  lemma {:induction false} ParsedMembersFit(s: Bytes, nesting: nat, members: seq<Member>)
    requires MembersFit(members, nesting) && 0 < nesting <= MAX_NESTING + 1
    requires ParseMembers(s, nesting, members).Parsed?
    ensures Fits(ParseMembers(s, nesting, members).value, nesting - 1)
    decreases |s|, 0
  {
    hide ParseValue, Fits, GetQuoted;
    var Read(name, t) := GetQuoted(s).value;
    var u := SkipSpace(t);
    ParsedFits(u[1..], nesting);
    var Parsed(value, w) := ParseValue(u[1..], nesting);
    var members' := members + [Member(name, value)];
    var x := SkipSpace(w);
    if Peek(x) == COMMA {
      ParsedMembersFit(SkipSpace(x[1..]), nesting, members');
    } else {
      ObjectFits(members', nesting);
    }
  }

  lemma ObjectFits(members: seq<Member>, nesting: nat)
    requires MembersFit(members, nesting) && 0 < nesting <= MAX_NESTING + 1
    ensures Fits(Obj(members), nesting - 1)
  {
    MembersHeightFits(members, nesting);
  }

  /**
   Printing is a normal form of parsing: whatever text a value came from, printing it in
   either style and parsing again gives the same value.
   */
  lemma ParsedReprints(s: Bytes, pretty: bool)
    requires ParseText(s).Parsed?
    ensures ParseText(Text(ParseText(s).value, 0, pretty)) == Parsed(ParseText(s).value, [])
  {
    hide ParseValue;
    var v := ParseText(s).value;
    if |s| >= 3 && s[0] == 0xEF && s[1] == 0xBB && s[2] == 0xBF {
      ParsedFits(s[3..], 0);
    } else {
      ParsedFits(s, 0);
    }
    ParseTextUndoesPrint(v, pretty);
  }

  // --- Well-formed text gives well-formed strings ---------------------------------

  ghost predicate Utf8Strings(v: Json) {
    match v
    case Str(s) => IsValid(s)
    case Arr(items) => forall i :: 0 <= i < |items| ==> Utf8Strings(items[i])
    case Obj(members) =>
      forall i :: 0 <= i < |members| ==> IsValid(members[i].name) && Utf8Strings(members[i].value)
    case _ => true
  }

  ghost predicate KeepsUtf8(r: Parse) {
    r.Parsed? ==> IsValid(r.rest) && Utf8Strings(r.value)
  }

  lemma {:induction false} SkipSpaceKeepsUtf8(s: Bytes)
    requires IsValid(s)
    ensures IsValid(SkipSpace(s))
  {
    if s != [] && IsSpace(s[0]) {
      SkipSpaceKeepsUtf8(s[1..]);
    }
  }

  /** Skipping an ASCII mark and whitespace. */
  lemma StepKeepsUtf8(s: Bytes)
    requires IsValid(s) && s != [] && s[0] < 0x80
    ensures IsValid(s[1..]) && IsValid(SkipSpace(s[1..]))
  {
    SkipSpaceKeepsUtf8(s[1..]);
  }

  lemma {:induction false} DropAsciiKeepsUtf8(s: Bytes, k: nat)
    requires IsValid(s) && k <= |s| && forall i :: 0 <= i < k ==> s[i] < 0x80
    ensures IsValid(s[k..])
  {
    if k > 0 {
      DropAsciiKeepsUtf8(s[1..], k - 1);
      assert s[1..][k - 1..] == s[k..];
    } else {
      assert s[0..] == s;
    }
  }

  lemma ScalarKeepsUtf8(t: Bytes)
    requires IsValid(t)
    ensures KeepsUtf8(ParseString(t)) && KeepsUtf8(ParseBoolean(t)) && KeepsUtf8(ParseNull(t))
    ensures Peek(t) == MINUS || IsDigit(Peek(t)) ==> KeepsUtf8(ParseNumber(t))
  {
    hide ReadNumber, GetQuoted;
    if GetQuoted(t).Some? {
      GetQuotedKeepsUtf8(t);
      IsValidIffWellFormed(GetQuoted(t).value.value);
    }
    if TRUE <= t || NULL <= t {
      DropAsciiKeepsUtf8(t, 4);
    }
    if FALSE <= t {
      DropAsciiKeepsUtf8(t, 5);
    }
    if (Peek(t) == MINUS || IsDigit(Peek(t))) && ReadNumber(t).Good? {
      ReadNumberAscii(t);
      var k: nat :| k <= |t| && t[k..] == ReadNumber(t).rest && forall i :: 0 <= i < k ==> t[i] < 0x80;
      DropAsciiKeepsUtf8(t, k);
    }
  }

  /** Parsing well-formed UTF-8 yields well-formed strings and names, and leaves well-formed text. */
  lemma {:induction false} ParseKeepsUtf8(s: Bytes, nesting: nat)
    requires IsValid(s)
    ensures KeepsUtf8(ParseValue(s, nesting))
    decreases |s|, 2
  {
    hide ParseString, ParseBoolean, ParseNull, ParseNumber, ParseItems, ParseMembers, IsValid;
    var t := SkipSpace(s);
    SkipSpaceKeepsUtf8(s);
    ScalarKeepsUtf8(t);
    if Peek(t) == LBRACE || Peek(t) == LBRACKET {
      StepKeepsUtf8(t);
      var u := SkipSpace(t[1..]);
      if Peek(u) == RBRACE || Peek(u) == RBRACKET {
        StepKeepsUtf8(u);
      }
      if Peek(t) == LBRACE {
        ParseMembersKeepsUtf8(u, nesting + 1, []);
      } else {
        ParseItemsKeepsUtf8(u, nesting + 1, []);
      }
    }
  }

  lemma {:induction false} ParseItemsKeepsUtf8(s: Bytes, nesting: nat, items: seq<Json>)
    requires IsValid(s) && forall i :: 0 <= i < |items| ==> Utf8Strings(items[i])
    ensures KeepsUtf8(ParseItems(s, nesting, items))
    decreases |s|, 3
  {
    hide ParseValue, IsValid;
    ParseKeepsUtf8(s, nesting);
    if ParseValue(s, nesting).Parsed? {
      var Parsed(value, w) := ParseValue(s, nesting);
      var x := SkipSpace(w);
      SkipSpaceKeepsUtf8(w);
      if Peek(x) == COMMA || Peek(x) == RBRACKET {
        StepKeepsUtf8(x);
        if Peek(x) == COMMA {
          ParseItemsKeepsUtf8(SkipSpace(x[1..]), nesting, items + [value]);
        }
      }
    }
  }

  lemma {:induction false} ParseMembersKeepsUtf8(s: Bytes, nesting: nat, members: seq<Member>)
    requires IsValid(s)
    requires forall i :: 0 <= i < |members| ==> IsValid(members[i].name) && Utf8Strings(members[i].value)
    ensures KeepsUtf8(ParseMembers(s, nesting, members))
    decreases |s|, 0
  {
    hide ParseValue, GetQuoted, IsValid, HasName;
    if GetQuoted(s).Some? {
      var Read(name, t) := GetQuoted(s).value;
      GetQuotedKeepsUtf8(s);
      IsValidIffWellFormed(name);
      SkipSpaceKeepsUtf8(t);
      var u := SkipSpace(t);
      if Peek(u) == COLON {
        StepKeepsUtf8(u);
        ParseKeepsUtf8(u[1..], nesting);
        if ParseValue(u[1..], nesting).Parsed? {
          var Parsed(value, w) := ParseValue(u[1..], nesting);
          var x := SkipSpace(w);
          SkipSpaceKeepsUtf8(w);
          if Peek(x) == COMMA || Peek(x) == RBRACE {
            StepKeepsUtf8(x);
            if Peek(x) == COMMA {
              ParseMembersKeepsUtf8(SkipSpace(x[1..]), nesting, members + [Member(name, value)]);
            }
          }
        }
      }
    }
  }
}
