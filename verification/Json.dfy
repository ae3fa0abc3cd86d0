/**
 JSON values as trees. Numbers are reals: rounding is not modelled, and the codec
 theorems are about the integers of magnitude at most 2^53, which a double holds exactly.
 */
module Json {
  import opened Bytes

  datatype Json =
    | Null
    | Bool(b: bool)
    | Num(x: real)
    | Str(s: Bytes)
    | Arr(items: seq<Json>)
    | Obj(members: seq<Member>)

  datatype Member = Member(name: Bytes, value: Json)

  const MAX_EXACT: int := 0x20_0000_0000_0000 // 2^53

  /** No two members share a name. */
  ghost predicate Distinct(members: seq<Member>) {
    forall i, j :: 0 <= i < j < |members| ==> members[i].name != members[j].name
  }

  /** What the allocated trees satisfy: C strings without NUL, and distinct names in every object. */
  ghost predicate WellFormed(v: Json) {
    match v
    case Str(s) => NulFree(s)
    case Arr(items) => forall i :: 0 <= i < |items| ==> WellFormed(items[i])
    case Obj(members) =>
      && Distinct(members)
      && forall i :: 0 <= i < |members| ==> NulFree(members[i].name) && WellFormed(members[i].value)
    case _ => true
  }

  /** An integer that a double holds exactly and "%1.17g" prints as a plain decimal. */
  predicate Whole(x: real) {
    x == x.Floor as real && -MAX_EXACT <= x.Floor <= MAX_EXACT
  }

  ghost predicate WholeNumbers(v: Json) {
    match v
    case Num(x) => Whole(x)
    case Arr(items) => forall i :: 0 <= i < |items| ==> WholeNumbers(items[i])
    case Obj(members) => forall i :: 0 <= i < |members| ==> WholeNumbers(members[i].value)
    case _ => true
  }

  ghost predicate Printable(v: Json) {
    WellFormed(v) && WholeNumbers(v)
  }

  function Max(a: nat, b: nat): nat {
    if a < b then b else a
  }

  /** Levels of objects and arrays below the root; a scalar or an empty container has none. */
  function Height(v: Json): nat {
    match v
    case Arr(items) => ItemsHeight(items)
    case Obj(members) => MembersHeight(members)
    case _ => 0
  }

  function ItemsHeight(items: seq<Json>): nat {
    if items == [] then 0 else Max(1 + Height(items[0]), ItemsHeight(items[1..]))
  }

  function MembersHeight(members: seq<Member>): nat {
    if members == [] then 0 else Max(1 + Height(members[0].value), MembersHeight(members[1..]))
  }

  /** The value at the end of a path of positions, if there is one. */
  function At(v: Json, path: seq<nat>): Option<Json>
    decreases |path|
  {
    if path == [] then Some(v)
    else
      match v
      case Arr(items) => if path[0] < |items| then At(items[path[0]], path[1..]) else None
      case Obj(members) => if path[0] < |members| then At(members[path[0]].value, path[1..]) else None
      case _ => None
  }

  /** The height is the length of the longest path to a value. */
  lemma {:induction false} HeightIsDeepest(v: Json) returns (path: seq<nat>)
    ensures |path| == Height(v) && At(v, path).Some?
    decreases v, 1
  {
    path := [];
    match v
    case Arr(items) =>
      if items != [] {
        var i, p := DeepestItem(items);
        path := [i] + p;
        assert path[1..] == p;
      }
    case Obj(members) =>
      if members != [] {
        var i, p := DeepestMember(members);
        path := [i] + p;
        assert path[1..] == p;
      }
    case _ =>
  }

  lemma {:induction false} DeepestItem(items: seq<Json>) returns (i: nat, path: seq<nat>)
    requires items != []
    ensures i < |items| && 1 + |path| == ItemsHeight(items) && At(items[i], path).Some?
    decreases items, 0
  {
    i := 0;
    path := HeightIsDeepest(items[0]);
    if |items| > 1 {
      var j, p := DeepestItem(items[1..]);
      if |p| > |path| {
        i, path := j + 1, p;
      }
    }
  }

  lemma {:induction false} DeepestMember(members: seq<Member>) returns (i: nat, path: seq<nat>)
    requires members != []
    ensures i < |members| && 1 + |path| == MembersHeight(members) && At(members[i].value, path).Some?
    decreases members, 0
  {
    i := 0;
    path := HeightIsDeepest(members[0].value);
    if |members| > 1 {
      var j, p := DeepestMember(members[1..]);
      if |p| > |path| {
        i, path := j + 1, p;
      }
    }
  }

  lemma {:induction false} HeightBoundsPaths(v: Json, path: seq<nat>)
    requires At(v, path).Some?
    ensures |path| <= Height(v)
    decreases |path|
  {
    if path != [] {
      match v
      case Arr(items) =>
        HeightBoundsPaths(items[path[0]], path[1..]);
        ItemsHeightAt(items, path[0]);
      case Obj(members) =>
        HeightBoundsPaths(members[path[0]].value, path[1..]);
        MembersHeightAt(members, path[0]);
    }
  }

  lemma {:induction false} ItemsHeightAt(items: seq<Json>, i: nat)
    requires i < |items|
    ensures Height(items[i]) < ItemsHeight(items)
  {
    if i > 0 {
      ItemsHeightAt(items[1..], i - 1);
    }
  }

  lemma {:induction false} MembersHeightAt(members: seq<Member>, i: nat)
    requires i < |members|
    ensures Height(members[i].value) < MembersHeight(members)
  {
    if i > 0 {
      MembersHeightAt(members[1..], i - 1);
    }
  }

  /** `json_object_nget_value`: the first member whose name has the same length and bytes. */
  function Lookup(members: seq<Member>, name: Bytes): Option<Json> {
    if members == [] then None
    else if members[0].name == name then Some(members[0].value)
    else Lookup(members[1..], name)
  }

  predicate HasName(members: seq<Member>, name: Bytes) {
    exists i :: 0 <= i < |members| && members[i].name == name
  }

  lemma LookupAt(members: seq<Member>, i: nat)
    requires Distinct(members) && i < |members|
    ensures Lookup(members, members[i].name) == Some(members[i].value)
  {
    if i > 0 {
      assert members[0].name != members[i].name;
      assert members[1..][i - 1] == members[i];
      assert Distinct(members[1..]);
      LookupAt(members[1..], i - 1);
    }
  }

  lemma LookupIsSomeIff(members: seq<Member>, name: Bytes)
    ensures Lookup(members, name).Some? <==> HasName(members, name)
    ensures Lookup(members, name).Some? ==>
      exists i :: 0 <= i < |members| && members[i] == Member(name, Lookup(members, name).value)
  {
    if members != [] {
      LookupIsSomeIff(members[1..], name);
      assert forall i :: 0 < i < |members| ==> members[i] == members[1..][i - 1];
      if members[0].name == name {
        assert members[0] == Member(name, Lookup(members, name).value);
      } else if Lookup(members, name).Some? {
        var i :| 0 <= i < |members[1..]| && members[1..][i] == Member(name, Lookup(members[1..], name).value);
        assert members[i + 1] == members[1..][i];
      }
    }
  }
}
