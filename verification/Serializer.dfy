/**
 The serializer of lib/parson.c as it runs, in both of its modes: with a null buffer it only
 measures, otherwise it writes in place behind an advancing pointer. Both modes return the
 length of the same text, and a buffer one byte longer than that is never overrun.
 */
module Serializer {
  import opened Bytes
  import opened Json
  import opened Strings
  import opened Numbers
  import opened Parser
  import opened Layout

  const NUM_BUF_SIZE: nat := 64

  // --- What a buffer looks like after writing -------------------------------------

  /**
   `t` was written at `off`: what precedes it is untouched, and so is everything behind the
   one byte after it, which may hold a terminator.
   */
  ghost predicate Wrote(before: Bytes, after: Bytes, off: nat, t: Bytes) {
    && |after| == |before| && off + |t| < |before|
    && after[..off + |t|] == before[..off] + t
    && after[off + |t| + 1..] == before[off + |t| + 1..]
  }

  lemma WroteNothing(before: Bytes, off: nat)
    requires off < |before|
    ensures Wrote(before, before, off, [])
  {
    assert before[..off] + [] == before[..off];
  }

  lemma WroteMore(b0: Bytes, b1: Bytes, b2: Bytes, off: nat, t1: Bytes, t2: Bytes)
    requires Wrote(b0, b1, off, t1) && Wrote(b1, b2, off + |t1|, t2)
    ensures Wrote(b0, b2, off, t1 + t2)
  {
    var k := off + |t1 + t2| + 1;
    assert b0[..off] + t1 + t2 == b0[..off] + (t1 + t2);
    assert b1[k..] == b1[off + |t1| + 1..][|t2|..];
    assert b0[k..] == b0[off + |t1| + 1..][|t2|..];
  }

  ghost function Image(buf: array?<byte>): Bytes
    reads buf
  {
    if buf == null then [] else buf[..]
  }

  /** In writing mode, `t` stands at `off`; in measuring mode there is nothing to say. */
  ghost predicate Holds(buf: array?<byte>, before: Bytes, off: nat, t: Bytes)
    reads buf
  {
    buf != null ==> Wrote(before, buf[..], off, t)
  }

  // --- Appending ------------------------------------------------------------------

  /** `sprintf(buf, "%s", s)`. */
  method Sprintf(buf: array<byte>, off: nat, s: Bytes) returns (written: nat)
    requires off + |s| < buf.Length
    modifies buf
    ensures written == |s|
    ensures Wrote(old(buf[..]), buf[..], off, s)
    ensures buf[off + |s|] == 0
  {
    forall i | 0 <= i < |s| {
      buf[off + i] := s[i];
    }
    buf[off + |s|] := 0;
    assert buf[..off + |s|] == old(buf[..off]) + s;
    return |s|;
  }

  /** The APPEND_STRING macro: `total` bytes are written already, namely `done`. */
  method AppendString(buf: array?<byte>, off: nat, total: nat, s: Bytes, ghost before: Bytes, ghost done: Bytes)
    returns (total': nat)
    requires total == |done| && Holds(buf, before, off, done)
    requires buf != null ==> off + total + |s| < buf.Length
    modifies buf
    ensures total' == |done + s| && Holds(buf, before, off, done + s)
    ensures buf != null ==> buf[off + total'] == 0
  {
    ghost var mid := Image(buf);
    var written := |s|;
    if buf != null {
      written := Sprintf(buf, off + total, s);
      WroteMore(before, mid, buf[..], off, done, s);
    }
    total' := total + written;
  }

  /** An APPEND_STRING that runs only under a condition. */
  method AppendWhen(
    when: bool, buf: array?<byte>, off: nat, total: nat, s: Bytes, ghost before: Bytes, ghost done: Bytes)
    returns (total': nat)
    requires total == |done| && Holds(buf, before, off, done)
    requires buf != null ==> off + total + |When(when, s)| < buf.Length
    modifies buf
    ensures total' == |done + When(when, s)| && Holds(buf, before, off, done + When(when, s))
  {
    total' := total;
    assert done + [] == done;
    if when {
      total' := AppendString(buf, off, total, s, before, done);
    }
  }

  /** An APPEND_INDENT that runs only under a condition. */
  method AppendIndentWhen(
    when: bool, buf: array?<byte>, off: nat, total: nat, level: nat, ghost before: Bytes, ghost done: Bytes)
    returns (total': nat)
    requires total == |done| && Holds(buf, before, off, done)
    requires buf != null ==> off + total + |When(when, Indent(level))| < buf.Length
    modifies buf
    ensures total' == |done + When(when, Indent(level))|
    ensures Holds(buf, before, off, done + When(when, Indent(level)))
  {
    total' := total;
    assert done + [] == done;
    if when {
      total' := AppendIndent(buf, off, total, level, before, done);
    }
  }

  /** `append_indent`. */
  method AppendIndent(buf: array?<byte>, off: nat, total: nat, level: nat, ghost before: Bytes, ghost done: Bytes)
    returns (total': nat)
    requires total == |done| && Holds(buf, before, off, done)
    requires buf != null ==> off + total + |Indent(level)| < buf.Length
    modifies buf
    ensures total' == |done + Indent(level)| && Holds(buf, before, off, done + Indent(level))
  {
    total' := total;
    assert done + Indent(0) == done;
    for i := 0 to level
      invariant total' == |done + Indent(i)| && Holds(buf, before, off, done + Indent(i))
    {
      IndentGrows(i, level);
      assert done + Indent(i) + [SPACE, SPACE, SPACE, SPACE] == done + Indent(i + 1);
      total' := AppendString(buf, off, total', [SPACE, SPACE, SPACE, SPACE], before, done + Indent(i));
    }
  }

  lemma {:induction false} IndentGrows(i: nat, level: nat)
    requires i < level
    ensures Indent(i + 1) == Indent(i) + [SPACE, SPACE, SPACE, SPACE]
    ensures |Indent(i)| + 4 <= |Indent(level)|
  {
    IndentLength(i);
    IndentLength(level);
    if i > 0 {
      IndentGrows(i - 1, i);
    }
  }

  lemma {:induction false} IndentLength(level: nat)
    ensures |Indent(level)| == 4 * level
  {
    if level > 0 {
      IndentLength(level - 1);
    }
  }

  /** `json_serialize_string`; an ordinary byte is stored without a terminator. */
  method SerializeString(s: Bytes, buf: array?<byte>, off: nat, total: nat, ghost before: Bytes, ghost done: Bytes)
    returns (total': nat)
    requires total == |done| && Holds(buf, before, off, done)
    requires buf != null ==> off + total + |Quoted(s)| < buf.Length
    modifies buf
    ensures total' == |done + Quoted(s)| && Holds(buf, before, off, done + Quoted(s))
    ensures buf != null ==> buf[off + total'] == 0
  {
    hide Holds, Pending, Escape;
    ghost var goal := done + Quoted(s);
    assert s[0..] == s;
    StartString(done, s);
    total' := AppendString(buf, off, total, [QUOTE], before, done);
    ghost var out := done + [QUOTE];
    for i := 0 to |s|
      invariant total' == |out| && Holds(buf, before, off, out)
      invariant Pending(out, EscapeAll(s[i..]) + [QUOTE], goal)
    {
      var c := s[i];
      assert s[i..][1..] == s[i + 1..];
      Advance(out, Escape(c), EscapeAll(s[i + 1..]), [QUOTE], goal);
      if |Escape(c)| > 1 {
        total' := AppendString(buf, off, total', Escape(c), before, out);
      } else {
        OrdinaryByte(c);
        if buf != null {
          total' := PutByte(buf, off, total', c, before, out);
        } else {
          NotWriting(buf, before, off, out + [c]);
          total' := total' + 1;
        }
      }
      out := out + Escape(c);
    }
    assert s[|s|..] == [];
    Complete(out, [QUOTE], goal);
    total' := AppendString(buf, off, total', [QUOTE], before, out);
  }

  lemma OrdinaryByte(c: byte)
    requires |Escape(c)| == 1
    ensures Escape(c) == [c]
  {
  }

  lemma NotWriting(buf: array?<byte>, before: Bytes, off: nat, t: Bytes)
    requires buf == null
    ensures Holds(buf, before, off, t)
  {
  }

  /** Writing `rest` after `out` completes `goal`. */
  ghost predicate Pending(out: Bytes, rest: Bytes, goal: Bytes) {
    out + rest == goal
  }

  /** One piece of what is pending moves to what is written. */
  lemma Advance(out: Bytes, piece: Bytes, more: Bytes, end: Bytes, goal: Bytes)
    requires Pending(out, piece + more + end, goal)
    ensures Pending(out + piece, more + end, goal)
    ensures |out + piece| + |end| <= |goal|
  {
    assert out + piece + (more + end) == out + (piece + more + end);
  }

  lemma Complete(out: Bytes, end: Bytes, goal: Bytes)
    requires Pending(out, [] + end, goal)
    ensures out + end == goal
  {
    assert [] + end == end;
  }

  lemma StartString(done: Bytes, s: Bytes)
    ensures Pending(done + [QUOTE], EscapeAll(s) + [QUOTE], done + Quoted(s))
  {
  }

  lemma StartArray(done: Bytes, items: seq<Json>, level: nat, pretty: bool)
    ensures
      var inside := |items| > 0 && pretty;
      Pending(done + [LBRACKET] + When(inside, [NEWLINE]),
              ItemsText(items, level, pretty) + (When(inside, Indent(level)) + [RBRACKET]),
              done + Text(Arr(items), level, pretty))
  {
    StartContainer(done, LBRACKET, When(|items| > 0 && pretty, [NEWLINE]), ItemsText(items, level, pretty),
                   When(|items| > 0 && pretty, Indent(level)), RBRACKET);
  }

  lemma StartObject(done: Bytes, members: seq<Member>, level: nat, pretty: bool)
    ensures
      var inside := |members| > 0 && pretty;
      Pending(done + [LBRACE] + When(inside, [NEWLINE]),
              MembersText(members, level, pretty) + (When(inside, Indent(level)) + [RBRACE]),
              done + Text(Obj(members), level, pretty))
  {
    StartContainer(done, LBRACE, When(|members| > 0 && pretty, [NEWLINE]), MembersText(members, level, pretty),
                   When(|members| > 0 && pretty, Indent(level)), RBRACE);
  }

  lemma StartContainer(done: Bytes, open: byte, nl: Bytes, body: Bytes, indent: Bytes, close: byte)
    ensures done + [open] + nl + (body + (indent + [close])) == done + ([open] + nl + body + indent + [close])
    ensures body == [] && nl == [] && indent == [] ==>
      [open] + nl + body + indent + [close] == [open, close]
  {
  }

  method PutByte(buf: array<byte>, off: nat, total: nat, c: byte, ghost before: Bytes, ghost done: Bytes)
    returns (total': nat)
    requires total == |done| && Holds(buf, before, off, done)
    requires off + total + 1 < buf.Length
    modifies buf
    ensures total' == |done + [c]| && Holds(buf, before, off, done + [c])
  {
    ghost var mid := buf[..];
    buf[off + total] := c;
    assert buf[..off + total + 1] == mid[..off + total] + [c];
    WroteMore(before, mid, buf[..], off, done, [c]);
    total' := total + 1;
  }

  // --- Values ---------------------------------------------------------------------

  /** `json_serialize_to_buffer_r` behind the first `total` bytes; `numBuf` is its scratch space for measuring. */
  method SerializeToBuffer(
    v: Json, buf: array?<byte>, off: nat, total: nat, level: nat, pretty: bool, numBuf: array?<byte>,
    ghost before: Bytes, ghost done: Bytes) returns (total': nat)
    requires Printable(v)
    requires total == |done| && Holds(buf, before, off, done)
    requires buf != null ==> off + total + |Text(v, level, pretty)| < buf.Length
    requires buf == null ==> numBuf != null && numBuf.Length >= NUM_BUF_SIZE
    modifies buf, if buf == null then numBuf else null
    ensures total' == |done + Text(v, level, pretty)| && Holds(buf, before, off, done + Text(v, level, pretty))
    ensures buf != null ==> buf[off + total'] == 0
    decreases v, 1
  {
    match v
    case Arr(items) =>
      total' := SerializeArray(items, buf, off, total, level, pretty, numBuf, before, done);
    case Obj(members) =>
      total' := SerializeObject(members, buf, off, total, level, pretty, numBuf, before, done);
    case Str(s) =>
      total' := SerializeString(s, buf, off, total, before, done);
    case Bool(b) =>
      if b {
        total' := AppendString(buf, off, total, TRUE, before, done);
      } else {
        total' := AppendString(buf, off, total, FALSE, before, done);
      }
    case Num(x) =>
      total' := SerializeNumber(x, buf, off, total, numBuf, before, done);
    case Null =>
      total' := AppendString(buf, off, total, NULL, before, done);
  }

  /** `sprintf` with "%1.17g", into the buffer or, when measuring, into the scratch space. */
  method SerializeNumber(
    x: real, buf: array?<byte>, off: nat, total: nat, numBuf: array?<byte>, ghost before: Bytes, ghost done: Bytes)
    returns (total': nat)
    requires Whole(x)
    requires total == |done| && Holds(buf, before, off, done)
    requires buf != null ==> off + total + |DecimalText(x.Floor)| < buf.Length
    requires buf == null ==> numBuf != null && numBuf.Length >= NUM_BUF_SIZE
    modifies buf, if buf == null then numBuf else null
    ensures total' == |done + DecimalText(x.Floor)| && Holds(buf, before, off, done + DecimalText(x.Floor))
    ensures buf != null ==> buf[off + total'] == 0
  {
    hide DecimalText, Wrote;
    var text := DecimalText(x.Floor);
    DecimalLength(x.Floor);
    ghost var mid := Image(buf);
    var written;
    if buf != null {
      written := Sprintf(buf, off + total, text);
      WroteMore(before, mid, buf[..], off, done, text);
    } else {
      written := Sprintf(numBuf, 0, text);
    }
    total' := total + written;
  }

  method SerializeArray(
    items: seq<Json>, buf: array?<byte>, off: nat, total: nat, level: nat, pretty: bool, numBuf: array?<byte>,
    ghost before: Bytes, ghost done: Bytes) returns (total': nat)
    requires Printable(Arr(items))
    requires total == |done| && Holds(buf, before, off, done)
    requires buf != null ==> off + total + |Text(Arr(items), level, pretty)| < buf.Length
    requires buf == null ==> numBuf != null && numBuf.Length >= NUM_BUF_SIZE
    modifies buf, if buf == null then numBuf else null
    ensures total' == |done + Text(Arr(items), level, pretty)|
    ensures Holds(buf, before, off, done + Text(Arr(items), level, pretty))
    ensures buf != null ==> buf[off + total'] == 0
    decreases items, 1
  {
    hide Holds, Printable, Pending, Text, ItemText, Indent, When;
    var count := |items|;
    var inside := count > 0 && pretty;
    ghost var goal := done + Text(Arr(items), level, pretty);
    ghost var indent := When(inside, Indent(level));
    assert items[0..] == items;
    StartArray(done, items, level, pretty);
    OpeningFits(done, LBRACKET, When(inside, [NEWLINE]), ItemsText(items, level, pretty) + (indent + [RBRACKET]), goal);
    total' := AppendString(buf, off, total, [LBRACKET], before, done);
    total' := AppendWhen(inside, buf, off, total', [NEWLINE], before, done + [LBRACKET]);
    ghost var out := done + [LBRACKET] + When(inside, [NEWLINE]);
    for i := 0 to count
      invariant total' == |out| && Holds(buf, before, off, out)
      invariant Pending(out, ItemsText(items[i..], level, pretty) + (indent + [RBRACKET]), goal)
    {
      ghost var turn := ItemText(items[i], count - i, level, pretty);
      assert items[i..][1..] == items[i + 1..];
      Advance(out, turn, ItemsText(items[i + 1..], level, pretty), indent + [RBRACKET], goal);
      PrintableItem(items, i);
      total' := SerializeItem(items[i], count - i, buf, off, total', level, pretty, numBuf, before, out);
      out := out + turn;
    }
    assert items[count..] == [];
    Complete(out, indent + [RBRACKET], goal);
    assert out + (indent + [RBRACKET]) == out + indent + [RBRACKET];
    total' := AppendIndentWhen(inside, buf, off, total', level, before, out);
    total' := AppendString(buf, off, total', [RBRACKET], before, out + indent);
  }

  lemma PrintableItem(items: seq<Json>, i: nat)
    requires Printable(Arr(items)) && i < |items|
    ensures Printable(items[i])
  {
  }

  lemma OpeningFits(done: Bytes, open: byte, nl: Bytes, rest: Bytes, goal: Bytes)
    requires Pending(done + [open] + nl, rest, goal)
    ensures |done| + 1 + |nl| + |rest| == |goal|
  {
  }

  /** One turn of the array loop. */
  method SerializeItem(
    item: Json, remaining: nat, buf: array?<byte>, off: nat, total: nat, level: nat, pretty: bool,
    numBuf: array?<byte>, ghost before: Bytes, ghost done: Bytes) returns (total': nat)
    requires Printable(item)
    requires total == |done| && Holds(buf, before, off, done)
    requires buf != null ==> off + total + |ItemText(item, remaining, level, pretty)| < buf.Length
    requires buf == null ==> numBuf != null && numBuf.Length >= NUM_BUF_SIZE
    modifies buf, if buf == null then numBuf else null
    ensures total' == |done + ItemText(item, remaining, level, pretty)|
    ensures Holds(buf, before, off, done + ItemText(item, remaining, level, pretty))
    decreases item, 2
  {
    hide Holds, Printable, Text, Indent, When, Comma, ItemText;
    ghost var indent, value := When(pretty, Indent(level + 1)), Text(item, level + 1, pretty);
    ItemPieces(done, item, remaining, level, pretty);
    total' := AppendIndentWhen(pretty, buf, off, total, level + 1, before, done);
    total' := SerializeToBuffer(item, buf, off, total', level + 1, pretty, numBuf, before, done + indent);
    total' := AppendWhen(remaining > 1, buf, off, total', [COMMA], before, done + indent + value);
    total' := AppendWhen(pretty, buf, off, total', [NEWLINE], before, done + indent + value + Comma(remaining));
  }

  lemma ItemPieces(done: Bytes, item: Json, remaining: nat, level: nat, pretty: bool)
    ensures
      done + When(pretty, Indent(level + 1)) + Text(item, level + 1, pretty) + Comma(remaining)
      + When(pretty, [NEWLINE]) == done + ItemText(item, remaining, level, pretty)
    ensures Comma(remaining) == When(remaining > 1, [COMMA])
  {
    hide Text, Indent;
    var indent, value := When(pretty, Indent(level + 1)), Text(item, level + 1, pretty);
    Prepend(done, indent, value);
    Prepend(done, indent + value, Comma(remaining));
    Prepend(done, indent + value + Comma(remaining), When(pretty, [NEWLINE]));
  }

  lemma Prepend(done: Bytes, a: Bytes, b: Bytes)
    ensures done + a + b == done + (a + b)
  {
  }

  method SerializeObject(
    members: seq<Member>, buf: array?<byte>, off: nat, total: nat, level: nat, pretty: bool, numBuf: array?<byte>,
    ghost before: Bytes, ghost done: Bytes) returns (total': nat)
    requires Printable(Obj(members))
    requires total == |done| && Holds(buf, before, off, done)
    requires buf != null ==> off + total + |Text(Obj(members), level, pretty)| < buf.Length
    requires buf == null ==> numBuf != null && numBuf.Length >= NUM_BUF_SIZE
    modifies buf, if buf == null then numBuf else null
    ensures total' == |done + Text(Obj(members), level, pretty)|
    ensures Holds(buf, before, off, done + Text(Obj(members), level, pretty))
    ensures buf != null ==> buf[off + total'] == 0
    decreases members, 1
  {
    hide Holds, Printable, Pending, Text, MemberText, Indent, When;
    var count := |members|;
    var inside := count > 0 && pretty;
    ghost var goal := done + Text(Obj(members), level, pretty);
    ghost var indent := When(inside, Indent(level));
    assert members[0..] == members;
    StartObject(done, members, level, pretty);
    OpeningFits(done, LBRACE, When(inside, [NEWLINE]), MembersText(members, level, pretty) + (indent + [RBRACE]), goal);
    total' := AppendString(buf, off, total, [LBRACE], before, done);
    total' := AppendWhen(inside, buf, off, total', [NEWLINE], before, done + [LBRACE]);
    ghost var out := done + [LBRACE] + When(inside, [NEWLINE]);
    for i := 0 to count
      invariant total' == |out| && Holds(buf, before, off, out)
      invariant Pending(out, MembersText(members[i..], level, pretty) + (indent + [RBRACE]), goal)
    {
      ghost var turn := MemberText(members[i], count - i, level, pretty);
      assert members[i..][1..] == members[i + 1..];
      Advance(out, turn, MembersText(members[i + 1..], level, pretty), indent + [RBRACE], goal);
      var key := members[i].name;
      LookupFinds(members, i);
      var temp := Lookup(members, key).value;
      total' := SerializeMember(
        key, temp, count - i, buf, off, total', level, pretty, numBuf, before, out);
      out := out + turn;
    }
    assert members[count..] == [];
    Complete(out, indent + [RBRACE], goal);
    assert out + (indent + [RBRACE]) == out + indent + [RBRACE];
    total' := AppendIndentWhen(inside, buf, off, total', level, before, out);
    total' := AppendString(buf, off, total', [RBRACE], before, out + indent);
  }

  /** Looking a member up by its name finds that very member, because names are distinct. */
  lemma LookupFinds(members: seq<Member>, i: nat)
    requires Printable(Obj(members)) && i < |members|
    ensures Lookup(members, members[i].name) == Some(members[i].value)
    ensures NulFree(members[i].name) && Printable(members[i].value)
  {
    LookupAt(members, i);
  }

  /** One turn of the object loop. */
  method SerializeMember(
    key: Bytes, value: Json, remaining: nat, buf: array?<byte>, off: nat, total: nat, level: nat, pretty: bool,
    numBuf: array?<byte>, ghost before: Bytes, ghost done: Bytes) returns (total': nat)
    requires Printable(value)
    requires total == |done| && Holds(buf, before, off, done)
    requires buf != null ==> off + total + |MemberText(Member(key, value), remaining, level, pretty)| < buf.Length
    requires buf == null ==> numBuf != null && numBuf.Length >= NUM_BUF_SIZE
    modifies buf, if buf == null then numBuf else null
    ensures total' == |done + MemberText(Member(key, value), remaining, level, pretty)|
    ensures Holds(buf, before, off, done + MemberText(Member(key, value), remaining, level, pretty))
    decreases value, 2
  {
    hide Holds, Printable, Text, Quoted, Indent, When, Comma, MemberText;
    ghost var d1 := done + When(pretty, Indent(level + 1));
    ghost var d2 := d1 + Quoted(key);
    ghost var d3 := d2 + [COLON];
    ghost var d4 := d3 + When(pretty, [SPACE]);
    ghost var d5 := d4 + Text(value, level + 1, pretty);
    ghost var d6 := d5 + Comma(remaining);
    ghost var d7 := d6 + When(pretty, [NEWLINE]);
    MemberPieces(done, key, value, remaining, level, pretty);
    total' := AppendIndentWhen(pretty, buf, off, total, level + 1, before, done);
    total' := SerializeString(key, buf, off, total', before, d1);
    total' := AppendString(buf, off, total', [COLON], before, d2);
    total' := AppendWhen(pretty, buf, off, total', [SPACE], before, d3);
    total' := SerializeToBuffer(value, buf, off, total', level + 1, pretty, numBuf, before, d4);
    total' := AppendWhen(remaining > 1, buf, off, total', [COMMA], before, d5);
    total' := AppendWhen(pretty, buf, off, total', [NEWLINE], before, d6);
  }

  lemma MemberPieces(done: Bytes, key: Bytes, value: Json, remaining: nat, level: nat, pretty: bool)
    ensures
      done + When(pretty, Indent(level + 1)) + Quoted(key) + [COLON] + When(pretty, [SPACE])
      + Text(value, level + 1, pretty) + Comma(remaining) + When(pretty, [NEWLINE])
      == done + MemberText(Member(key, value), remaining, level, pretty)
    ensures Comma(remaining) == When(remaining > 1, [COMMA])
  {
    hide Text, Indent, Quoted;
    var m1 := When(pretty, Indent(level + 1));
    var m2 := m1 + Quoted(key);
    var m3 := m2 + [COLON];
    var m4 := m3 + When(pretty, [SPACE]);
    var m5 := m4 + Text(value, level + 1, pretty);
    Prepend(done, m1, Quoted(key));
    Prepend(done, m2, [COLON]);
    Prepend(done, m3, When(pretty, [SPACE]));
    Prepend(done, m4, Text(value, level + 1, pretty));
    Prepend(done, m5, Comma(remaining));
    Prepend(done, m5 + Comma(remaining), When(pretty, [NEWLINE]));
  }

  // --- The public entry points ----------------------------------------------------

  /** `json_serialization_size` and `json_serialization_size_pretty`. */
  method SerializationSize(v: Json, pretty: bool) returns (size: nat)
    requires Printable(v)
    ensures size == |Text(v, 0, pretty)| + 1
  {
    var numBuf := new byte[NUM_BUF_SIZE];
    var res := SerializeToBuffer(v, null, 0, 0, 0, pretty, numBuf, [], []);
    assert [] + Text(v, 0, pretty) == Text(v, 0, pretty);
    return res + 1;
  }


  /** `json_serialize_to_buffer` and its pretty form: they write exactly when the buffer is long enough. */
  method SerializeInto(v: Json, buf: array<byte>, pretty: bool) returns (ok: bool)
    requires Printable(v)
    modifies buf
    ensures ok <==> |Text(v, 0, pretty)| < buf.Length
    ensures !ok ==> buf[..] == old(buf[..])
    ensures ok ==>
      buf[..] == Text(v, 0, pretty) + [0] + old(buf[|Text(v, 0, pretty)| + 1..])
  {
    hide Text, Printable;
    var needed := SerializationSize(v, pretty);
    if buf.Length < needed {
      return false;
    }
    ghost var before, text := buf[..], Text(v, 0, pretty);
    WroteNothing(before, 0);
    assert [] + text == text;
    var written := SerializeToBuffer(v, buf, 0, 0, 0, pretty, null, before, []);
    assert buf[..][..|text|] == text by {
      assert buf[..][..0 + |text|] == before[..0] + text;
      assert before[..0] + text == text;
    }
    assert buf[..] == buf[..][..|text|] + [buf[|text|]] + buf[..][|text| + 1..];
    return true;
  }

  /** `json_serialize_to_string` and its pretty form: the text, its NUL, and nothing more. */
  method SerializeToString(v: Json, pretty: bool) returns (buf: array<byte>)
    requires Printable(v)
    ensures fresh(buf) && buf[..] == Text(v, 0, pretty) + [0]
  {
    var size := SerializationSize(v, pretty);
    buf := new byte[size];
    var ok := SerializeInto(v, buf, pretty);
    assert buf[..] == Text(v, 0, pretty) + [0];
  }
}
