/**
 The member store of an object (lib/parson.c): parallel arrays of names and values with
 linear lookup, growth by doubling and removal by swapping in the last pair.
 */
module Objects {
  import opened Bytes
  import opened Json
  import opened Compare

  // --- The operations on member lists ---------------------------------------------

  /** The loop index at which a name is found. */
  function IndexOf(members: seq<Member>, name: Bytes): (r: Option<nat>)
    ensures r.Some? ==> r.value < |members| && members[r.value].name == name
    ensures r.None? <==> !HasName(members, name)
  {
    if members == [] then None
    else if members[0].name == name then Some(0)
    else
      assert forall i :: 0 < i < |members| ==> members[i] == members[1..][i - 1];
      match IndexOf(members[1..], name)
      case None => None
      case Some(i) => Some(i + 1)
  }

  /** `json_object_add`: refuses a name that is present. */
  function AddMember(members: seq<Member>, name: Bytes, value: Json): Option<seq<Member>> {
    if HasName(members, name) then None else Some(members + [Member(name, value)])
  }

  /** `json_object_set_value` for a value without a parent. */
  function SetMember(members: seq<Member>, name: Bytes, value: Json): seq<Member> {
    match IndexOf(members, name)
    case Some(i) => members[i := Member(name, value)]
    case None => members + [Member(name, value)]
  }

  /** `json_object_remove`: the last pair takes the place of the removed one. */
  function RemoveMember(members: seq<Member>, name: Bytes): Option<seq<Member>> {
    match IndexOf(members, name)
    case None => None
    case Some(i) => Some(members[i := members[|members| - 1]][..|members| - 1])
  }

  function NamesInOrder(members: seq<Member>): (r: seq<Bytes>)
    ensures |r| == |members| && forall i :: 0 <= i < |r| ==> r[i] == members[i].name
  {
    seq(|members|, i requires 0 <= i < |members| => members[i].name)
  }

  /** Setting keeps every name in its place, or puts a new one last; no other value changes. */
  lemma SetKeepsOrder(members: seq<Member>, name: Bytes, value: Json)
    ensures NamesInOrder(SetMember(members, name, value)) ==
      NamesInOrder(members) + if HasName(members, name) then [] else [name]
    ensures forall i :: 0 <= i < |members| && members[i].name != name ==> SetMember(members, name, value)[i] == members[i]
  {
    hide IndexOf;
  }

  /** After a removal only the last pair has moved, into the freed place. */
  lemma RemoveKeepsOrder(members: seq<Member>, name: Bytes)
    requires RemoveMember(members, name).Some? && Distinct(members)
    ensures var after := RemoveMember(members, name).value;
      && |after| == |members| - 1
      && forall i :: 0 <= i < |after| ==>
           after[i] == if members[i].name == name then members[|members| - 1] else members[i]
  {
    hide IndexOf;
  }

  // --- Member lists as finite maps ------------------------------------------------

  ghost function Get(members: seq<Member>, name: Bytes): Json {
    match Lookup(members, name)
    case Some(v) => v
    case None => Null
  }

  ghost function AsMap(members: seq<Member>): map<Bytes, Json> {
    map name | name in Names(members) :: Get(members, name)
  }

  /** What a list of distinct names maps each of them to. */
  lemma AsMapAt(members: seq<Member>, i: nat)
    requires Distinct(members) && i < |members|
    ensures members[i].name in AsMap(members) && AsMap(members)[members[i].name] == members[i].value
  {
    LookupAt(members, i);
  }

  /** A map that agrees with a list on every member is its map. */
  lemma IsAsMap(members: seq<Member>, m: map<Bytes, Json>)
    requires Distinct(members) && m.Keys == Names(members)
    requires forall i :: 0 <= i < |members| ==> members[i].name in m && m[members[i].name] == members[i].value
    ensures AsMap(members) == m
  {
    forall name | name in m
      ensures AsMap(members)[name] == m[name]
    {
      var i :| 0 <= i < |members| && members[i].name == name;
      AsMapAt(members, i);
    }
  }

  lemma AddRefines(members: seq<Member>, name: Bytes, value: Json)
    requires Distinct(members)
    ensures AddMember(members, name, value).None? <==> name in AsMap(members)
    ensures AddMember(members, name, value).Some? ==>
      var after := AddMember(members, name, value).value;
      Distinct(after) && AsMap(after) == AsMap(members)[name := value]
  {
    HasNameIsMembership(members, name);
    if !HasName(members, name) {
      var after := members + [Member(name, value)];
      forall i | 0 <= i < |members|
        ensures AsMap(members)[members[i].name] == members[i].value && members[i].name != name
      {
        AsMapAt(members, i);
      }
      assert Names(after) == Names(members) + {name};
      IsAsMap(after, AsMap(members)[name := value]);
    }
  }

  lemma SetRefines(members: seq<Member>, name: Bytes, value: Json)
    requires Distinct(members)
    ensures Distinct(SetMember(members, name, value))
    ensures AsMap(SetMember(members, name, value)) == AsMap(members)[name := value]
  {
    match IndexOf(members, name)
    case None => AddRefines(members, name, value);
    case Some(i) =>
      var after := members[i := Member(name, value)];
      forall j | 0 <= j < |members|
        ensures AsMap(members)[members[j].name] == members[j].value
        ensures after[j].name == members[j].name
        ensures j != i ==> members[j].name != name
      {
        AsMapAt(members, j);
      }
      assert Distinct(after);
      assert Names(after) == Names(members) by {
        SameNames(after, members);
        SameNames(members, after);
      }
      IsAsMap(after, AsMap(members)[name := value]);
  }

  lemma SameNames(m: seq<Member>, n: seq<Member>)
    requires forall i :: 0 <= i < |m| ==> HasName(n, m[i].name)
    ensures Names(m) <= Names(n)
  {
    forall x | x in Names(m)
      ensures x in Names(n)
    {
      HasNameIsMembership(m, x);
      HasNameIsMembership(n, x);
    }
  }

  /** Overwriting one pair with the last and dropping the last keeps the other pairs, once each. */
  lemma SwapRemoved(members: seq<Member>, i: nat)
    requires Distinct(members) && i < |members|
    ensures
      var after := members[i := members[|members| - 1]][..|members| - 1];
      && Distinct(after)
      && (forall j :: 0 <= j < |after| ==> after[j] in members && after[j].name != members[i].name)
      && (forall j :: 0 <= j < |members| && j != i ==> HasName(after, members[j].name))
  {
    var n := |members| - 1;
    var after := members[i := members[n]][..n];
    assert forall j :: 0 <= j < n ==> after[j] == if j == i then members[n] else members[j];
    forall j | 0 <= j < |members| && j != i
      ensures HasName(after, members[j].name)
    {
      var k := if j == n then i else j;
      assert after[k] == members[j];
    }
  }

  lemma RemoveRefines(members: seq<Member>, name: Bytes)
    requires Distinct(members)
    ensures RemoveMember(members, name).None? <==> name !in AsMap(members)
    ensures RemoveMember(members, name).Some? ==>
      var after := RemoveMember(members, name).value;
      Distinct(after) && AsMap(after) == AsMap(members) - {name}
  {
    hide Distinct;
    HasNameIsMembership(members, name);
    match IndexOf(members, name)
    case None =>
    case Some(i) =>
      SwapRemoved(members, i);
      var after := RemoveMember(members, name).value;
      forall j | 0 <= j < |after|
        ensures after[j].name in AsMap(members) - {name} && AsMap(members)[after[j].name] == after[j].value
      {
        var k :| 0 <= k < |members| && members[k] == after[j];
        AsMapAt(members, k);
      }
      forall x | x in Names(members) - {name}
        ensures x in Names(after)
      {
        var j :| 0 <= j < |members| && members[j].name == x;
        HasNameIsMembership(after, x);
      }
      assert Names(after) == Names(members) - {name};
      IsAsMap(after, AsMap(members) - {name});
  }

  // --- Whole runs -----------------------------------------------------------------

  datatype Op = Add(name: Bytes, value: Json) | Set(name: Bytes, value: Json) | Remove(name: Bytes) | Clear

  function Apply(members: seq<Member>, op: Op): seq<Member> {
    match op
    case Add(name, value) => (match AddMember(members, name, value) case Some(after) => after case None => members)
    case Set(name, value) => SetMember(members, name, value)
    case Remove(name) => (match RemoveMember(members, name) case Some(after) => after case None => members)
    case Clear => []
  }

  ghost function ApplyMap(m: map<Bytes, Json>, op: Op): map<Bytes, Json> {
    match op
    case Add(name, value) => if name in m then m else m[name := value]
    case Set(name, value) => m[name := value]
    case Remove(name) => m - {name}
    case Clear => map[]
  }

  function Run(members: seq<Member>, ops: seq<Op>): seq<Member>
    decreases |ops|
  {
    if ops == [] then members else Run(Apply(members, ops[0]), ops[1..])
  }

  ghost function RunMap(m: map<Bytes, Json>, ops: seq<Op>): map<Bytes, Json>
    decreases |ops|
  {
    if ops == [] then m else RunMap(ApplyMap(m, ops[0]), ops[1..])
  }

  lemma ApplyRefines(members: seq<Member>, op: Op)
    requires Distinct(members)
    ensures Distinct(Apply(members, op)) && AsMap(Apply(members, op)) == ApplyMap(AsMap(members), op)
  {
    match op
    case Add(name, value) => AddRefines(members, name, value);
    case Set(name, value) => SetRefines(members, name, value);
    case Remove(name) =>
      RemoveRefines(members, name);
      if name !in AsMap(members) {
        assert AsMap(members) - {name} == AsMap(members);
      }
    case Clear =>
  }

  /** Every run of additions, updates, removals and clearings is that run on a finite map. */
  lemma {:induction false} RunRefines(members: seq<Member>, ops: seq<Op>)
    requires Distinct(members)
    ensures Distinct(Run(members, ops)) && AsMap(Run(members, ops)) == RunMap(AsMap(members), ops)
    decreases |ops|
  {
    if ops != [] {
      ApplyRefines(members, ops[0]);
      RunRefines(Apply(members, ops[0]), ops[1..]);
    }
  }

  // --- The store as it runs -------------------------------------------------------

  const STARTING_CAPACITY: nat := 16

  class JsonValue {
    const tree: Json
    var parent: JsonValue?

    constructor (tree: Json)
      ensures this.tree == tree && parent == null
    {
      this.tree := tree;
      this.parent := null;
    }
  }

  class JsonObject {
    const wrappingValue: JsonValue
    var names: array<Bytes>
    var values: array<JsonValue?>
    var count: nat
    var capacity: nat

    /** The arrays hold `capacity` pairs, of which the first `count` are in use. */
    predicate Shape()
      reads this, names, values
    {
      && count <= capacity == names.Length == values.Length
      && forall i :: 0 <= i < count ==> values[i] != null
    }

    function Members(): (r: seq<Member>)
      requires Shape()
      reads this, names, values
      ensures |r| == count
    {
      seq(count, i requires 0 <= i < count && Shape() reads this, names, values => Member(names[i], values[i].tree))
    }

    ghost function Children(): set<JsonValue>
      reads this, values
    {
      set i | 0 <= i < values.Length && i < count && values[i] != null :: values[i]
    }

    /** Distinct names, and every child's parent is the wrapping value. */
    ghost predicate Valid()
      reads this, names, values, Children()
    {
      && Shape()
      && Distinct(Members())
      && forall child :: child in Children() ==> child.parent == wrappingValue
    }

    /** `json_object_init`. */
    constructor (wrappingValue: JsonValue)
      ensures Valid() && Members() == [] && capacity == 0 && this.wrappingValue == wrappingValue
      ensures fresh(names) && fresh(values)
    {
      this.wrappingValue := wrappingValue;
      names := new Bytes[0];
      values := new JsonValue?[0];
      count := 0;
      capacity := 0;
    }

    /** `json_object_nget_value` on the first `n` bytes of a name. */
    method NGetValue(name: Bytes, n: nat) returns (value: JsonValue?)
      requires Shape() && n <= |name|
      ensures value == null <==> Lookup(Members(), name[..n]).None?
      ensures value != null ==> value in Children() && Lookup(Members(), name[..n]) == Some(value.tree)
    {
      ghost var members := Members();
      for i := 0 to count
        invariant Lookup(members, name[..n]) == Lookup(members[i..], name[..n])
      {
        assert members[i..][0] == Member(names[i], values[i].tree);
        assert members[i..][1..] == members[i + 1..];
        if |names[i]| == n && names[i] == name[..n] {
          return values[i];
        }
      }
      return null;
    }

    /** `json_object_resize`, called with a capacity that holds the members. */
    method Resize(newCapacity: nat) returns (ok: bool)
      requires Shape() && (newCapacity == 0 || count <= newCapacity)
      modifies this
      ensures ok <==> newCapacity != 0
      ensures Shape() && Members() == old(Members()) && count == old(count)
      ensures Children() == old(Children())
      ensures ok ==> capacity == newCapacity && fresh(names) && fresh(values)
      ensures !ok ==> names == old(names) && values == old(values) && capacity == old(capacity)
    {
      if newCapacity == 0 {
        return false;
      }
      var tempNames := new Bytes[newCapacity];
      var tempValues := new JsonValue?[newCapacity](_ => null);
      forall i | 0 <= i < count {
        tempNames[i] := names[i];
      }
      forall i | 0 <= i < count {
        tempValues[i] := values[i];
      }
      names := tempNames;
      values := tempValues;
      capacity := newCapacity;
      assert forall i :: 0 <= i < count ==> values[i] == old(values[i]);
      return true;
    }

    /** The stores at the end of `json_object_add`, with room for one more pair. */
    method Append(name: Bytes, value: JsonValue)
      requires Valid() && count < capacity && !HasName(Members(), name)
      modifies this`count, names, values, value`parent
      ensures Valid() && Members() == old(Members()) + [Member(name, value.tree)]
      ensures Children() == old(Children()) + {value}
    {
      hide Distinct, HasName;
      ghost var members := Members();
      var index := count;
      names[index] := name;
      value.parent := wrappingValue;
      values[index] := value;
      count := count + 1;
      assert Members() == members + [Member(name, value.tree)];
      AddRefines(members, name, value.tree);
      assert forall i :: 0 <= i < index ==> values[i] == old(values[i]);
    }

    /** `json_object_add`; it does not look at the value's parent, but sets it. */
    method Add(name: Bytes, value: JsonValue?) returns (ok: bool)
      requires Valid()
      modifies this, names, values, value
      ensures Valid()
      ensures ok <==> value != null && AddMember(old(Members()), name, value.tree).Some?
      ensures ok ==> Some(Members()) == AddMember(old(Members()), name, value.tree)
      ensures ok ==> Children() == old(Children()) + {value}
      ensures !ok ==> Members() == old(Members()) && Children() == old(Children())
      ensures !ok && value != null ==> value.parent == old(value.parent)
      ensures ok ==>
        capacity == if old(count) < old(capacity) then old(capacity) else Max(2 * old(capacity), STARTING_CAPACITY)
      ensures names == old(names) || fresh(names)
      ensures values == old(values) || fresh(values)
    {
      hide Distinct, Lookup;
      if value == null {
        return false;
      }
      LookupIsSomeIff(Members(), name);
      assert name[..|name|] == name;
      var found := NGetValue(name, |name|);
      if found != null {
        return false;
      }
      if count >= capacity {
        var newCapacity := Max(capacity * 2, STARTING_CAPACITY);
        var resized := Resize(newCapacity);
        if !resized {
          return false;
        }
      }
      Append(name, value);
      return true;
    }

    /** `json_object_set_value`: overwrites in place, or adds; a value that has a parent is refused. */
    method Set(name: Bytes, value: JsonValue?) returns (ok: bool)
      requires Valid()
      modifies this, names, values, value
      ensures Valid()
      ensures ok <==> value != null && old(value.parent) == null
      ensures ok ==> Members() == SetMember(old(Members()), name, value.tree) && value in Children()
      ensures !ok ==> Members() == old(Members()) && (value != null ==> value.parent == old(value.parent))
      ensures names == old(names) || fresh(names)
      ensures values == old(values) || fresh(values)
    {
      hide Distinct, Lookup, IndexOf, NulFree;
      if value == null || value.parent != null {
        return false;
      }
      ghost var members := Members();
      LookupIsSomeIff(members, name);
      assert name[..|name|] == name;
      var oldValue := NGetValue(name, |name|);
      if oldValue != null {
        IndexOfFirst(members, name);
        for i := 0 to count
          invariant forall k :: 0 <= k < i ==> names[k] != name
        {
          assert members[i].name == names[i];
          if names[i] == name {
            Overwrite(i, value);
            return true;
          }
        }
        assert false;
      }
      ok := Add(name, value);
    }

    method Overwrite(i: nat, value: JsonValue)
      requires Valid() && i < count
      modifies values, value`parent
      ensures Valid() && Members() == old(Members())[i := Member(names[i], value.tree)]
      ensures value in Children()
    {
      ghost var members := Members();
      value.parent := wrappingValue;
      values[i] := value;
      assert Members() == members[i := Member(names[i], value.tree)];
      assert forall k :: 0 <= k < count ==> Members()[k].name == members[k].name;
    }

    /** `json_object_remove`. */
    method Remove(name: Bytes) returns (ok: bool)
      requires Valid()
      modifies this, names, values
      ensures Valid() && names == old(names) && values == old(values) && capacity == old(capacity)
      ensures ok <==> RemoveMember(old(Members()), name).Some?
      ensures ok ==> Some(Members()) == RemoveMember(old(Members()), name)
      ensures !ok ==> Members() == old(Members())
      ensures Children() <= old(Children())
    {
      hide Distinct, Lookup, NulFree, IndexOf;
      ghost var members := Members();
      LookupIsSomeIff(members, name);
      assert name[..|name|] == name;
      var found := NGetValue(name, |name|);
      if found == null {
        return false;
      }
      IndexOfFirst(members, name);
      var lastItemIndex := count - 1;
      for i := 0 to count
        invariant forall k :: 0 <= k < i ==> names[k] != name
      {
        assert members[i].name == names[i];
        if names[i] == name {
          Drop(i, lastItemIndex);
          return true;
        }
      }
      assert false;
    }

    method Drop(i: nat, lastItemIndex: nat)
      requires Valid() && i < count && lastItemIndex == count - 1
      modifies this`count, names, values
      ensures Valid() && Members() == old(Members())[i := old(Members())[lastItemIndex]][..lastItemIndex]
      ensures Children() <= old(Children())
    {
      ghost var members := Members();
      SwapRemoved(members, i);
      if i != lastItemIndex {
        names[i] := names[lastItemIndex];
        values[i] := values[lastItemIndex];
      }
      count := count - 1;
      assert Members() == members[i := members[lastItemIndex]][..lastItemIndex];
    }

    /** `json_object_clear`. */
    method Clear()
      requires Valid()
      modifies this`count
      ensures Valid() && Members() == [] && Children() == {} && capacity == old(capacity)
    {
      count := 0;
    }
  }

  lemma {:induction false} IndexOfFirst(members: seq<Member>, name: Bytes)
    ensures match IndexOf(members, name)
      case None => forall k :: 0 <= k < |members| ==> members[k].name != name
      case Some(i) => forall k :: 0 <= k < i ==> members[k].name != name
  {
    if members != [] && members[0].name != name {
      IndexOfFirst(members[1..], name);
      assert forall k :: 0 < k < |members| ==> members[k] == members[1..][k - 1];
    }
  }
}
