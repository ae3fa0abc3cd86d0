/**
 The message layer (lib/message.c): a chat message becomes a pretty-printed JSON object and
 comes back field by field.
 */
module Messages {
  import opened Bytes
  import opened Json
  import opened Utf8
  import opened Strings
  import opened Numbers
  import opened Parser
  import opened Layout
  import opened RoundTrip
  import opened Serializer
  import opened Objects
  import ParserMethods
  import DotPaths
  import Soundness

  const MAX_MSG_DATA: nat := 2048
  const MAX_CHARS: nat := 20
  /** The message type is an enumeration without negative members: an unsigned 32-bit number. */
  const TYPES: int := 0x1_0000_0000
  const INT_MAX: int := 0x7FFF_FFFF

  const MSG_ID: Bytes := [0x6D, 0x73, 0x67, 0x49, 0x64]                                  // msgId
  const GROUP_ID: Bytes := [0x67, 0x72, 0x6F, 0x75, 0x70, 0x49, 0x64]                    // groupId
  const SENDER_NAME: Bytes := [0x73, 0x65, 0x6E, 0x64, 0x65, 0x72, 0x4E, 0x61, 0x6D, 0x65] // senderName
  const SEND_TIME: Bytes := [0x73, 0x65, 0x6E, 0x64, 0x54, 0x69, 0x6D, 0x65]             // sendTime
  const TYPE: Bytes := [0x74, 0x79, 0x70, 0x65]                                          // type
  const MSG: Bytes := [0x6D, 0x73, 0x67]                                                 // msg

  /** The message structure; the two texts are the C strings its buffers hold. */
  datatype Message = Message(
    msgId: int, groupId: int, senderName: Bytes, msg: Bytes, sendTime: int, kind: int)

  predicate Exact(n: int) {
    -MAX_EXACT <= n <= MAX_EXACT
  }

  /** Numbers a double holds, any message type, and texts that fit their buffers. */
  predicate InRange(m: Message) {
    && Exact(m.msgId) && Exact(m.groupId) && Exact(m.sendTime) && 0 <= m.kind < TYPES
    && NulFree(m.senderName) && |m.senderName| < MAX_CHARS
    && NulFree(m.msg) && |m.msg| < MAX_MSG_DATA
  }

  // --- Packing --------------------------------------------------------------------

  function SetNumber(members: seq<Member>, name: Bytes, n: int): seq<Member> {
    SetMember(members, name, Num(n as real))
  }

  /** `json_object_set_string`: a text that is not UTF-8 is silently not stored. */
  function SetString(members: seq<Member>, name: Bytes, s: Bytes): seq<Member> {
    if IsValid(s) then SetMember(members, name, Str(s)) else members
  }

  /** The object `pack_message` builds. */
  function PackMembers(m: Message): seq<Member> {
    var m1 := SetNumber([], MSG_ID, m.msgId);
    var m2 := SetNumber(m1, GROUP_ID, m.groupId);
    var m3 := SetString(m2, SENDER_NAME, m.senderName);
    var m4 := SetNumber(m3, SEND_TIME, m.sendTime);
    var m5 := SetNumber(m4, TYPE, m.kind);
    SetString(m5, MSG, m.msg)
  }

  function PackText(m: Message): Bytes {
    Text(Obj(PackMembers(m)), 0, true)
  }

  // --- Unpacking ------------------------------------------------------------------

  /** What `unpack_message` gives; it passes a missing text to `strncpy` as a null pointer. */
  datatype Unpacked = Restored(m: Message) | Undefined | Unknown

  /** `json_object_get_number` and the conversion to an integer. */
  function GetNumber(members: seq<Member>, name: Bytes): int {
    match Lookup(members, name)
    case Some(Num(x)) => if x >= 0.0 then x.Floor else -(-x).Floor
    case _ => 0
  }

  function GetString(members: seq<Member>, name: Bytes): Option<Bytes> {
    match Lookup(members, name)
    case Some(Str(s)) => Some(s)
    case _ => None
  }

  /** The text `strncpy` leaves in a zeroed buffer of `n` bytes; at `n` bytes it has no terminator. */
  function Clip(s: Bytes, n: nat): Bytes {
    if |s| < n then s else s[..n]
  }

  function UnpackMembers(members: seq<Member>): Unpacked {
    var kind := GetNumber(members, TYPE);
    match (GetString(members, MSG), GetString(members, SENDER_NAME))
    case (Some(msg), Some(senderName)) =>
      if !(-INT_MAX - 1 <= kind <= INT_MAX) then Undefined // the double does not fit the int it is converted to
      else
        Restored(Message(GetNumber(members, MSG_ID), GetNumber(members, GROUP_ID), Clip(senderName, MAX_CHARS),
                         Clip(msg, MAX_MSG_DATA), GetNumber(members, SEND_TIME), kind % TYPES))
    case _ => Undefined
  }

  /** `unpack_message` on a text. */
  function UnpackText(text: Bytes): Unpacked {
    match ParseText(text)
    case Foreign => Unknown
    case Rejected => Undefined
    case Parsed(Obj(members), _) => UnpackMembers(members)
    case Parsed(_, _) => Undefined
  }

  // --- What arrives in each field -------------------------------------------------

  /** The members of a packed message, in the order they are written. */
  lemma PackedNames(m: Message)
    ensures NamesInOrder(PackMembers(m)) ==
      [Ascii("msgId"), Ascii("groupId")]
      + (if WellFormedUtf8(m.senderName) then [Ascii("senderName")] else [])
      + [Ascii("sendTime"), Ascii("type")]
      + (if WellFormedUtf8(m.msg) then [Ascii("msg")] else [])
  {
    hide SetMember, IsValid, WellFormedUtf8;
    NamesSpelled();
    IsValidIffWellFormed(m.senderName);
    IsValidIffWellFormed(m.msg);
    var m1 := SetNumber([], MSG_ID, m.msgId);
    var m2 := SetNumber(m1, GROUP_ID, m.groupId);
    var m3 := SetString(m2, SENDER_NAME, m.senderName);
    var m4 := SetNumber(m3, SEND_TIME, m.sendTime);
    var m5 := SetNumber(m4, TYPE, m.kind);
    AppendsName([], MSG_ID, Num(m.msgId as real));
    AppendsName(m1, GROUP_ID, Num(m.groupId as real));
    AppendsName(m2, SENDER_NAME, Str(m.senderName));
    AppendsName(m3, SEND_TIME, Num(m.sendTime as real));
    AppendsName(m4, TYPE, Num(m.kind as real));
    AppendsName(m5, MSG, Str(m.msg));
  }

  lemma NamesSpelled()
    ensures MSG_ID == Ascii("msgId") && GROUP_ID == Ascii("groupId") && SENDER_NAME == Ascii("senderName")
    ensures SEND_TIME == Ascii("sendTime") && TYPE == Ascii("type") && MSG == Ascii("msg")
  {
  }

  lemma AppendsName(members: seq<Member>, name: Bytes, value: Json)
    requires name !in NamesInOrder(members)
    ensures NamesInOrder(SetMember(members, name, value)) == NamesInOrder(members) + [name]
  {
    SetKeepsOrder(members, name, value);
    assert forall i :: 0 <= i < |members| ==> NamesInOrder(members)[i] in NamesInOrder(members);
  }

  /** A number is cut towards zero on its way into an integer field. */
  lemma GetNumberTruncates(members: seq<Member>, name: Bytes, x: real)
    requires Lookup(members, name) == Some(Num(x))
    ensures var n := GetNumber(members, name) as real;
      if x >= 0.0 then n <= x < n + 1.0 else n - 1.0 < x <= n
  {
  }

  /** A field that is missing, or holds no number, is read as 0. */
  lemma MissingNumberIsZero(members: seq<Member>, name: Bytes)
    requires match Lookup(members, name) case Some(v) => !v.Num? case None => true
    ensures GetNumber(members, name) == 0
  {
  }

  function Least(a: nat, b: nat): nat {
    if a < b then a else b
  }

  /**
   Every field of an unpacked message: numbers by name, 0 for a missing one; texts by name, of
   which as much is kept as the buffer holds.
   */
  lemma UnpackedFields(members: seq<Member>)
    requires UnpackMembers(members).Restored?
    ensures var m := UnpackMembers(members).m;
      && m.msgId == GetNumber(members, Ascii("msgId")) && m.groupId == GetNumber(members, Ascii("groupId"))
      && m.sendTime == GetNumber(members, Ascii("sendTime"))
      && (GetNumber(members, Ascii("type")) >= 0 ==> m.kind == GetNumber(members, Ascii("type")))
    ensures match (Lookup(members, Ascii("msg")), Lookup(members, Ascii("senderName")))
      case (Some(Str(msg)), Some(Str(name))) =>
        var m := UnpackMembers(members).m;
        && m.msg <= msg && |m.msg| == Least(|msg|, 2048)
        && m.senderName <= name && |m.senderName| == Least(|name|, 20)
      case _ => false
  {
    hide Lookup;
    NamesSpelled();
  }

  // --- Unpacking undoes packing ---------------------------------------------------

  lemma LookupSetNumber(members: seq<Member>, name: Bytes, n: int, other: Bytes)
    ensures Lookup(SetNumber(members, name, n), other) ==
      if other == name then Some(Num(n as real)) else Lookup(members, other)
  {
    DotPaths.LookupAfterSet(members, name, Num(n as real), other);
  }

  lemma LookupSetString(members: seq<Member>, name: Bytes, s: Bytes, other: Bytes)
    ensures Lookup(SetString(members, name, s), other) ==
      if other == name && IsValid(s) then Some(Str(s)) else Lookup(members, other)
  {
    DotPaths.LookupAfterSet(members, name, Str(s), other);
  }

  /** Every field of a packed message, by name. */
  lemma PackedField(m: Message, name: Bytes)
    ensures Lookup(PackMembers(m), name) ==
      if name == MSG && IsValid(m.msg) then Some(Str(m.msg))
      else if name == TYPE then Some(Num(m.kind as real))
      else if name == SEND_TIME then Some(Num(m.sendTime as real))
      else if name == SENDER_NAME && IsValid(m.senderName) then Some(Str(m.senderName))
      else if name == GROUP_ID then Some(Num(m.groupId as real))
      else if name == MSG_ID then Some(Num(m.msgId as real))
      else None
  {
    hide SetNumber, SetString, IsValid;
    var m1 := SetNumber([], MSG_ID, m.msgId);
    var m2 := SetNumber(m1, GROUP_ID, m.groupId);
    var m3 := SetString(m2, SENDER_NAME, m.senderName);
    var m4 := SetNumber(m3, SEND_TIME, m.sendTime);
    var m5 := SetNumber(m4, TYPE, m.kind);
    LookupSetNumber([], MSG_ID, m.msgId, name);
    LookupSetNumber(m1, GROUP_ID, m.groupId, name);
    LookupSetString(m2, SENDER_NAME, m.senderName, name);
    LookupSetNumber(m3, SEND_TIME, m.sendTime, name);
    LookupSetNumber(m4, TYPE, m.kind, name);
    LookupSetString(m5, MSG, m.msg, name);
  }

  ghost predicate Flat(members: seq<Member>) {
    && Printable(Obj(members))
    && forall i :: 0 <= i < |members| ==> members[i].value.Num? || members[i].value.Str?
  }

  lemma SetKeepsFlat(members: seq<Member>, name: Bytes, v: Json)
    requires Flat(members) && NulFree(name) && Printable(v) && (v.Num? || v.Str?)
    ensures Flat(SetMember(members, name, v))
  {
    Objects.SetRefines(members, name, v);
  }

  lemma {:induction false} FlatHeight(members: seq<Member>)
    requires forall i :: 0 <= i < |members| ==> members[i].value.Num? || members[i].value.Str?
    ensures MembersHeight(members) <= 1
  {
    if members != [] {
      FlatHeight(members[1..]);
    }
  }

  lemma PackedIsFlat(m: Message)
    requires InRange(m)
    ensures Flat(PackMembers(m))
  {
    hide SetMember, Flat, IsValid;
    EmptyIsFlat();
    var m1 := SetNumber([], MSG_ID, m.msgId);
    var m2 := SetNumber(m1, GROUP_ID, m.groupId);
    var m3 := SetString(m2, SENDER_NAME, m.senderName);
    var m4 := SetNumber(m3, SEND_TIME, m.sendTime);
    var m5 := SetNumber(m4, TYPE, m.kind);
    SetKeepsFlat([], MSG_ID, Num(m.msgId as real));
    SetKeepsFlat(m1, GROUP_ID, Num(m.groupId as real));
    SetKeepsFlat(m2, SENDER_NAME, Str(m.senderName));
    SetKeepsFlat(m3, SEND_TIME, Num(m.sendTime as real));
    SetKeepsFlat(m4, TYPE, Num(m.kind as real));
    SetKeepsFlat(m5, MSG, Str(m.msg));
  }

  lemma EmptyIsFlat()
    ensures Flat([])
  {
  }

  /** A packed message parses back to its object. */
  lemma PackedParses(m: Message)
    requires InRange(m)
    ensures ParseText(PackText(m)) == Parsed(Obj(PackMembers(m)), [])
  {
    hide ParseText, Text;
    PackedIsFlat(m);
    FlatHeight(PackMembers(m));
    ParseTextUndoesPrint(Obj(PackMembers(m)), true);
  }

  lemma WholeConversion(n: int)
    ensures (if n as real >= 0.0 then (n as real).Floor else -(-(n as real)).Floor) == n
  {
    assert -(n as real) == (-n) as real;
  }

  /**
   Unpacking a packed message restores it exactly when both of its texts are well-formed
   UTF-8 and its type is an int; otherwise a text was dropped on packing and unpacking reads
   through a null pointer, or a conversion overflows.
   */
  lemma MessageRoundTrip(m: Message)
    requires InRange(m)
    ensures UnpackText(PackText(m)) ==
      if WellFormedUtf8(m.senderName) && WellFormedUtf8(m.msg) && m.kind <= INT_MAX then Restored(m) else Undefined
  {
    hide ParseText, PackText, PackMembers, IsValid, WellFormedUtf8;
    PackedParses(m);
    IsValidIffWellFormed(m.senderName);
    IsValidIffWellFormed(m.msg);
    PackedField(m, MSG_ID);
    PackedField(m, GROUP_ID);
    PackedField(m, SENDER_NAME);
    PackedField(m, SEND_TIME);
    PackedField(m, TYPE);
    PackedField(m, MSG);
    WholeConversion(m.msgId);
    WholeConversion(m.groupId);
    WholeConversion(m.sendTime);
    WholeConversion(m.kind);
  }

  // --- The procedures -------------------------------------------------------------

  /** `json_value_init_string`: null for a text that is not UTF-8. */
  method InitString(s: Bytes) returns (v: JsonValue?)
    requires NulFree(s)
    ensures v == null <==> !IsValid(s)
    ensures v != null ==> fresh(v) && v.tree == Str(s) && v.parent == null
  {
    IsValidIffWellFormed(s);
    var text := s + [0];
    assert text[..|text| - 1] == s;
    var ok := IsValidUtf8(text);
    if !ok {
      return null;
    }
    v := new JsonValue(Str(s));
  }

  method PutNumber(root: JsonObject, name: Bytes, n: int)
    requires root.Valid()
    modifies root, root.names, root.values
    ensures root.Valid() && root.Members() == SetNumber(old(root.Members()), name, n)
    ensures root.names == old(root.names) || fresh(root.names)
    ensures root.values == old(root.values) || fresh(root.values)
  {
    var v := new JsonValue(Num(n as real));
    var ok := root.Set(name, v);
  }

  method PutString(root: JsonObject, name: Bytes, s: Bytes)
    requires root.Valid() && NulFree(s)
    modifies root, root.names, root.values
    ensures root.Valid() && root.Members() == SetString(old(root.Members()), name, s)
    ensures root.names == old(root.names) || fresh(root.names)
    ensures root.values == old(root.values) || fresh(root.values)
  {
    var v := InitString(s);
    var ok := root.Set(name, v);
  }

  /** `pack_message`: the text with its NUL, and its size with the NUL counted. */
  method PackMessage(m: Message) returns (serialized: array<byte>, jsonSize: nat)
    requires InRange(m)
    ensures fresh(serialized) && serialized[..] == PackText(m) + [0]
    ensures jsonSize == |PackText(m)| + 1
  {
    hide SetMember, SetNumber, SetString, Text, Printable;
    var rootValue := new JsonValue(Obj([]));
    var root := new JsonObject(rootValue);
    PutNumber(root, MSG_ID, m.msgId);
    PutNumber(root, GROUP_ID, m.groupId);
    PutString(root, SENDER_NAME, m.senderName);
    PutNumber(root, SEND_TIME, m.sendTime);
    PutNumber(root, TYPE, m.kind);
    PutString(root, MSG, m.msg);
    var tree := Obj(root.Members());
    assert tree == Obj(PackMembers(m));
    PackedPrintable(m);
    serialized := SerializeToString(tree, true);
    jsonSize := SerializationSize(tree, true);
  }

  lemma PackedPrintable(m: Message)
    requires InRange(m)
    ensures Printable(Obj(PackMembers(m)))
  {
    PackedIsFlat(m);
  }

  /** The structure as it lies in memory. */
  class MessageStruct {
    var msgId: int
    var groupId: int
    const senderName: array<byte>
    const msg: array<byte>
    var sendTime: int
    var kind: int

    /** `new_messgae`: a zeroed structure. */
    constructor ()
      ensures fresh(senderName) && fresh(msg) && senderName != msg
      ensures senderName.Length == MAX_CHARS && msg.Length == MAX_MSG_DATA
      ensures msgId == groupId == sendTime == kind == 0
      ensures forall i :: 0 <= i < MAX_CHARS ==> senderName[i] == 0
      ensures forall i :: 0 <= i < MAX_MSG_DATA ==> msg[i] == 0
    {
      senderName := new byte[MAX_CHARS](_ => 0);
      msg := new byte[MAX_MSG_DATA](_ => 0);
      msgId, groupId, sendTime, kind := 0, 0, 0, 0;
    }

    /** The message the structure holds. */
    function Contents(): Message
      reads this, senderName, msg
    {
      Message(msgId, groupId, CString(senderName[..]), CString(msg[..]), sendTime, kind)
    }
  }

  /** `strncpy`: copies up to `n` bytes of a C string and pads with NULs. */
  method StrNCpy(dest: array<byte>, src: Bytes, n: nat)
    requires NulFree(src) && n == dest.Length
    modifies dest
    ensures CString(dest[..]) == Clip(src, n)
    ensures forall i :: 0 <= i < n ==> dest[i] == if i < |src| then src[i] else 0
  {
    var i := 0;
    while i < n && i < |src|
      invariant 0 <= i <= n && i <= |src|
      invariant dest[..i] == src[..i]
      decreases n - i
    {
      dest[i] := src[i];
      i := i + 1;
    }
    var copied := i;
    while i < n
      invariant copied <= i <= n
      invariant dest[..copied] == src[..copied]
      invariant forall k :: copied <= k < i ==> dest[k] == 0
      decreases n - i
    {
      dest[i] := 0;
      i := i + 1;
    }
    assert src[..copied] == Clip(src, n);
    if copied < n {
      assert dest[..] == dest[..copied] + [0] + dest[copied + 1..];
      CStringStopsAtNul(dest[..copied], dest[copied + 1..]);
    } else {
      assert dest[..] == src[..copied];
      CStringOfNulFree(src[..copied]);
    }
  }

  /** A text looked up in a parsed object is a C string. */
  lemma ParsedStringsAreNulFree(text: Bytes, members: seq<Member>, rest: Bytes, name: Bytes, s: Bytes)
    requires ParseText(text) == Parsed(Obj(members), rest) && Lookup(members, name) == Some(Str(s))
    ensures NulFree(s)
  {
    hide ParseValue, Lookup;
    Soundness.ParsedFits(if |text| >= 3 && text[0] == 0xEF && text[1] == 0xBB && text[2] == 0xBF then text[3..] else text, 0);
    assert Printable(Obj(members));
    LookupIsSomeIff(members, name);
    var i :| 0 <= i < |members| && members[i] == Member(name, Str(s));
    assert WellFormed(members[i].value);
  }

  /** `unpack_message`, on the texts for which it does not read through a null pointer. */
  method UnpackMessage(json: Bytes) returns (message: MessageStruct)
    requires IsCText(json) && UnpackText(json[..|json| - 1]).Restored?
    ensures fresh(message) && fresh(message.senderName) && fresh(message.msg)
    ensures Restored(message.Contents()) == UnpackText(json[..|json| - 1])
  {
    hide ParseText, NulFree, CString, Lookup;
    ghost var text := json[..|json| - 1];
    message := new MessageStruct();
    var r := ParserMethods.JsonParseString(json);
    var members := r.v.members;
    message.msgId := GetNumber(members, MSG_ID);
    message.groupId := GetNumber(members, GROUP_ID);
    message.sendTime := GetNumber(members, SEND_TIME);
    message.kind := GetNumber(members, TYPE) % TYPES;
    var msg := GetString(members, MSG).value;
    var senderName := GetString(members, SENDER_NAME).value;
    ParsedStringsAreNulFree(text, members, ParseText(text).rest, MSG, msg);
    ParsedStringsAreNulFree(text, members, ParseText(text).rest, SENDER_NAME, senderName);
    StrNCpy(message.msg, msg, MAX_MSG_DATA);
    StrNCpy(message.senderName, senderName, MAX_CHARS);
  }
}
