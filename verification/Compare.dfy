/**
 Equality, deep copy and schema validation of trees (lib/parson.c). Names in the objects of
 a tree are distinct; that is what makes walks over one side's names enough.
 */
module Compare {
  import opened Bytes
  import opened Json

  const EPSILON: real := 0.000001

  // --- Names ----------------------------------------------------------------------

  ghost function Names(members: seq<Member>): set<Bytes> {
    set m | m in members :: m.name
  }

  lemma {:induction false} NamesCount(members: seq<Member>)
    requires Distinct(members)
    ensures |Names(members)| == |members|
  {
    if members != [] {
      NamesCount(members[1..]);
      assert Names(members) == {members[0].name} + Names(members[1..]) by {
        assert members == [members[0]] + members[1..];
      }
      assert members[0].name !in Names(members[1..]);
    }
  }

  lemma HasNameIsMembership(members: seq<Member>, name: Bytes)
    ensures HasName(members, name) <==> name in Names(members)
  {
  }

  /** Distinct names that all occur in another list of distinct names are no more than those. */
  lemma NamesPigeonhole(m: seq<Member>, n: seq<Member>)
    requires Distinct(m) && Distinct(n)
    requires forall i :: 0 <= i < |m| ==> HasName(n, m[i].name)
    ensures |m| <= |n|
    ensures |m| == |n| ==> Names(m) == Names(n)
  {
    NamesCount(m);
    NamesCount(n);
    forall x | x in Names(m)
      ensures x in Names(n)
    {
      HasNameIsMembership(m, x);
      HasNameIsMembership(n, x);
    }
    assert Names(m) <= Names(n);
    SubsetCount(Names(m), Names(n));
  }

  lemma SubsetCount<T>(a: set<T>, b: set<T>)
    requires a <= b
    ensures |a| <= |b|
    ensures |a| == |b| ==> a == b
  {
    assert b == a + (b - a);
  }

  // --- Equality -------------------------------------------------------------------

  function Abs(x: real): real {
    if x < 0.0 then -x else x
  }

  /** `json_value_equals`; a missing value on the second side compares unequal. */
  predicate Equals(a: Json, b: Json) {
    match a
    case Null => b.Null?
    case Bool(x) => b == Bool(x)
    case Num(x) => b.Num? && Abs(x - b.x) < EPSILON
    case Str(s) => b == Str(s)
    case Arr(items) =>
      && b.Arr? && |items| == |b.items|
      && forall i :: 0 <= i < |items| ==> Equals(items[i], b.items[i])
    case Obj(members) =>
      && b.Obj? && |members| == |b.members|
      && forall i :: 0 <= i < |members| ==>
        var found := Lookup(b.members, members[i].name);
        found.Some? && Equals(members[i].value, found.value)
  }

  /** The loops of `json_value_equals`, with the lookups by name on both sides. */
  method JsonValueEquals(a: Json, b: Json) returns (r: bool)
    requires WellFormed(a) && WellFormed(b)
    ensures r <==> Equals(a, b)
    decreases a
  {
    match a
    case Null => return b.Null?;
    case Bool(x) => return b.Bool? && x == b.b;
    case Num(x) => return b.Num? && Abs(x - b.x) < EPSILON;
    case Str(s) => return b.Str? && s == b.s;
    case Arr(items) =>
      if !b.Arr? || |items| != |b.items| {
        return false;
      }
      for i := 0 to |items|
        invariant forall k :: 0 <= k < i ==> Equals(items[k], b.items[k])
      {
        var same := JsonValueEquals(items[i], b.items[i]);
        if !same {
          return false;
        }
      }
      return true;
    case Obj(members) =>
      if !b.Obj? || |members| != |b.members| {
        return false;
      }
      for i := 0 to |members|
        invariant forall k :: 0 <= k < i ==>
          var found := Lookup(b.members, members[k].name);
          found.Some? && Equals(members[k].value, found.value)
      {
        var key := members[i].name;
        LookupAt(members, i);
        LookupIsSomeIff(b.members, key);
        var mine := Lookup(members, key);
        var other := Lookup(b.members, key);
        if other.None? {
          return false;
        }
        var same := JsonValueEquals(mine.value, other.value);
        if !same {
          return false;
        }
      }
      return true;
  }

  lemma LookupValue(members: seq<Member>, name: Bytes, j: nat)
    requires Distinct(members) && j < |members| && members[j].name == name
    ensures Lookup(members, name) == Some(members[j].value)
  {
    LookupAt(members, j);
  }

  lemma {:induction false} EqualsReflexive(v: Json)
    requires WellFormed(v)
    ensures Equals(v, v)
  {
    match v
    case Arr(items) =>
      forall i | 0 <= i < |items|
        ensures Equals(items[i], items[i])
      {
        EqualsReflexive(items[i]);
      }
    case Obj(members) =>
      forall i | 0 <= i < |members|
        ensures Lookup(members, members[i].name) == Some(members[i].value)
        ensures Equals(members[i].value, members[i].value)
      {
        LookupAt(members, i);
        EqualsReflexive(members[i].value);
      }
    case _ =>
  }

  /**
   Although only the names of the first side are walked, equal counts make equality of two
   objects the same as having the same names with equal values: it is equality of finite maps.
   */
  lemma EqualsIsMapEquality(m: seq<Member>, n: seq<Member>)
    requires Distinct(m) && Distinct(n)
    ensures Equals(Obj(m), Obj(n)) <==>
      && Names(m) == Names(n)
      && forall i, j :: 0 <= i < |m| && 0 <= j < |n| && m[i].name == n[j].name ==> Equals(m[i].value, n[j].value)
  {
    if Equals(Obj(m), Obj(n)) {
      EqualNames(m, n);
      forall i, j | 0 <= i < |m| && 0 <= j < |n| && m[i].name == n[j].name
        ensures Equals(m[i].value, n[j].value)
      {
        LookupValue(n, m[i].name, j);
      }
    }
    if && Names(m) == Names(n)
       && forall i, j :: 0 <= i < |m| && 0 <= j < |n| && m[i].name == n[j].name ==> Equals(m[i].value, n[j].value)
    {
      NamesCount(m);
      NamesCount(n);
      forall i | 0 <= i < |m|
        ensures Lookup(n, m[i].name).Some? && Equals(m[i].value, Lookup(n, m[i].name).value)
      {
        assert m[i].name in Names(n);
        var j :| 0 <= j < |n| && n[j].name == m[i].name;
        LookupValue(n, m[i].name, j);
      }
    }
  }

  lemma EqualNames(m: seq<Member>, n: seq<Member>)
    requires Distinct(m) && Distinct(n) && Equals(Obj(m), Obj(n))
    ensures Names(m) == Names(n)
  {
    forall i | 0 <= i < |m|
      ensures HasName(n, m[i].name)
    {
      LookupIsSomeIff(n, m[i].name);
    }
    NamesPigeonhole(m, n);
  }

  lemma {:induction false} EqualsSymmetric(a: Json, b: Json)
    requires WellFormed(a) && WellFormed(b) && Equals(a, b)
    ensures Equals(b, a)
    decreases a
  {
    match a
    case Arr(items) =>
      forall i | 0 <= i < |items|
        ensures Equals(b.items[i], items[i])
      {
        EqualsSymmetric(items[i], b.items[i]);
      }
    case Obj(m) =>
      EqualsIsMapEquality(m, b.members);
      forall i, j | 0 <= i < |b.members| && 0 <= j < |m| && b.members[i].name == m[j].name
        ensures Equals(b.members[i].value, m[j].value)
      {
        EqualsSymmetric(m[j].value, b.members[i].value);
      }
      EqualsIsMapEquality(b.members, m);
    case _ =>
  }

  /** Two trees that differ only in the order of members, at any depth. */
  ghost predicate Reordered(a: Json, b: Json) {
    match a
    case Arr(items) =>
      && b.Arr? && |items| == |b.items|
      && forall i :: 0 <= i < |items| ==> Reordered(items[i], b.items[i])
    case Obj(m) =>
      && b.Obj? && Names(m) == Names(b.members)
      && forall i, j :: 0 <= i < |m| && 0 <= j < |b.members| && m[i].name == b.members[j].name ==>
           Reordered(m[i].value, b.members[j].value)
    case _ => a == b
  }

  /** Equality does not see the order of members. */
  lemma {:induction false} EqualsIgnoresOrder(a: Json, a': Json, b: Json)
    requires WellFormed(a) && WellFormed(a') && WellFormed(b) && Reordered(a, a')
    ensures Equals(a, b) ==> Equals(a', b)
    decreases a
  {
    if Equals(a, b) {
      match a
      case Arr(items) =>
        forall i | 0 <= i < |items|
          ensures Equals(a'.items[i], b.items[i])
        {
          EqualsIgnoresOrder(items[i], a'.items[i], b.items[i]);
        }
      case Obj(m) =>
        var m', n := a'.members, b.members;
        EqualsIsMapEquality(m, n);
        forall i, j | 0 <= i < |m'| && 0 <= j < |n| && m'[i].name == n[j].name
          ensures Equals(m'[i].value, n[j].value)
        {
          assert m'[i].name in Names(m);
          var k :| 0 <= k < |m| && m[k].name == m'[i].name;
          EqualsIgnoresOrder(m[k].value, m'[i].value, n[j].value);
        }
        EqualsIsMapEquality(m', n);
      case _ =>
    }
  }

  /** The same tree up to the order of members, at any depth, and up to the tolerance in its numbers. */
  ghost predicate Alike(a: Json, b: Json) {
    match a
    case Num(x) => b.Num? && -0.000001 < x - b.x < 0.000001
    case Arr(items) =>
      && b.Arr? && |items| == |b.items|
      && forall i :: 0 <= i < |items| ==> Alike(items[i], b.items[i])
    case Obj(m) =>
      && b.Obj? && Names(m) == Names(b.members)
      && forall i, j :: 0 <= i < |m| && 0 <= j < |b.members| && m[i].name == b.members[j].name ==>
           Alike(m[i].value, b.members[j].value)
    case _ => a == b
  }

  /** Nothing else compares equal, and nothing of the kind compares unequal. */
  lemma {:induction false} EqualsIffAlike(a: Json, b: Json)
    requires WellFormed(a) && WellFormed(b)
    ensures Equals(a, b) <==> Alike(a, b)
    decreases a
  {
    match a
    case Arr(items) =>
      if b.Arr? && |items| == |b.items| {
        forall i | 0 <= i < |items|
          ensures Equals(items[i], b.items[i]) <==> Alike(items[i], b.items[i])
        {
          EqualsIffAlike(items[i], b.items[i]);
        }
      }
    case Obj(m) =>
      if b.Obj? {
        var n := b.members;
        EqualsIsMapEquality(m, n);
        forall i, j | 0 <= i < |m| && 0 <= j < |n| && m[i].name == n[j].name
          ensures Equals(m[i].value, n[j].value) <==> Alike(m[i].value, n[j].value)
        {
          EqualsIffAlike(m[i].value, n[j].value);
        }
      }
    case _ =>
  }

  /** On trees whose numbers are integers, equality is being the same up to the order of members. */
  lemma {:induction false} EqualsIffReordered(a: Json, b: Json)
    requires Printable(a) && Printable(b)
    ensures Equals(a, b) <==> Reordered(a, b)
    decreases a
  {
    match a
    case Num(x) =>
      if b.Num? {
        assert x - b.x == (x.Floor - b.x.Floor) as real;
      }
    case Arr(items) =>
      if b.Arr? && |items| == |b.items| {
        forall i | 0 <= i < |items|
          ensures Equals(items[i], b.items[i]) <==> Reordered(items[i], b.items[i])
        {
          EqualsIffReordered(items[i], b.items[i]);
        }
      }
    case Obj(m) =>
      if b.Obj? {
        var n := b.members;
        EqualsIsMapEquality(m, n);
        forall i, j | 0 <= i < |m| && 0 <= j < |n| && m[i].name == n[j].name
          ensures Equals(m[i].value, n[j].value) <==> Reordered(m[i].value, n[j].value)
        {
          EqualsIffReordered(m[i].value, n[j].value);
        }
      }
    case _ =>
  }

  ghost predicate NumbersIn(v: Json, N: iset<real>) {
    match v
    case Num(x) => x in N
    case Arr(items) => forall i :: 0 <= i < |items| ==> NumbersIn(items[i], N)
    case Obj(members) => forall i :: 0 <= i < |members| ==> NumbersIn(members[i].value, N)
    case _ => true
  }

  /** No two tolerances among these numbers add up to more than one. */
  ghost predicate Separated(N: iset<real>) {
    forall x, y, z :: x in N && y in N && z in N && Near(x, y) && Near(y, z) ==> Near(x, z)
  }

  predicate Near(x: real, y: real) {
    Abs(x - y) < EPSILON
  }

  ghost predicate TransitiveOn(N: iset<real>) {
    forall a, b, c ::
      WellFormed(a) && WellFormed(b) && WellFormed(c)
      && NumbersIn(a, N) && NumbersIn(b, N) && NumbersIn(c, N)
      && Equals(a, b) && Equals(b, c)
      ==> Equals(a, c)
  }

  lemma {:induction false} EqualsTransitiveOver(N: iset<real>, a: Json, b: Json, c: Json)
    requires Separated(N) && WellFormed(a) && WellFormed(b) && WellFormed(c)
    requires NumbersIn(a, N) && NumbersIn(b, N) && NumbersIn(c, N)
    requires Equals(a, b) && Equals(b, c)
    ensures Equals(a, c)
    decreases a
  {
    match a
    case Num(x) => assert Near(x, b.x) && Near(b.x, c.x);
    case Arr(items) =>
      forall i | 0 <= i < |items|
        ensures Equals(items[i], c.items[i])
      {
        EqualsTransitiveOver(N, items[i], b.items[i], c.items[i]);
      }
    case Obj(m) =>
      var n, o := b.members, c.members;
      EqualsIsMapEquality(m, n);
      EqualsIsMapEquality(n, o);
      forall i, j | 0 <= i < |m| && 0 <= j < |o| && m[i].name == o[j].name
        ensures Equals(m[i].value, o[j].value)
      {
        assert m[i].name in Names(n);
        var k :| 0 <= k < |n| && n[k].name == m[i].name;
        EqualsTransitiveOver(N, m[i].value, n[k].value, o[j].value);
      }
      EqualsIsMapEquality(m, o);
    case _ =>
  }

  /** On the trees over a set of numbers, equality is transitive exactly when it is on the numbers. */
  lemma EqualsTransitiveIff(N: iset<real>)
    ensures TransitiveOn(N) <==> Separated(N)
  {
    if TransitiveOn(N) {
      forall x, y, z | x in N && y in N && z in N && Near(x, y) && Near(y, z)
        ensures Near(x, z)
      {
        assert Equals(Num(x), Num(y)) && Equals(Num(y), Num(z));
        assert Equals(Num(x), Num(z));
      }
    }
    if Separated(N) {
      forall a, b, c |
        WellFormed(a) && WellFormed(b) && WellFormed(c)
        && NumbersIn(a, N) && NumbersIn(b, N) && NumbersIn(c, N)
        && Equals(a, b) && Equals(b, c)
        ensures Equals(a, c)
      {
        EqualsTransitiveOver(N, a, b, c);
      }
    }
  }

  /** On trees whose numbers are integers, equality is transitive. */
  lemma EqualsTransitive(a: Json, b: Json, c: Json)
    requires Printable(a) && Printable(b) && Printable(c)
    requires Equals(a, b) && Equals(b, c)
    ensures Equals(a, c)
  {
    var N := iset x: real | Whole(x);
    forall x, y, z | x in N && y in N && z in N && Near(x, y) && Near(y, z)
      ensures Near(x, z)
    {
      assert x - y == (x.Floor - y.Floor) as real && y - z == (y.Floor - z.Floor) as real;
    }
    WholeNumbersIn(a);
    WholeNumbersIn(b);
    WholeNumbersIn(c);
    EqualsTransitiveOver(N, a, b, c);
  }

  lemma WholeNumbersIn(v: Json)
    requires WholeNumbers(v)
    ensures NumbersIn(v, iset x: real | Whole(x))
  {
  }

  /** With other numbers it is not: the tolerances add up. */
  lemma EqualsNotTransitive()
    ensures Equals(Num(0.0), Num(0.0000006)) && Equals(Num(0.0000006), Num(0.0000012))
    ensures !Equals(Num(0.0), Num(0.0000012))
  {
  }

  // --- Deep copy ------------------------------------------------------------------

  lemma NameIsNew(members: seq<Member>, i: nat)
    requires Distinct(members) && i < |members|
    ensures !HasName(members[..i], members[i].name)
    ensures members[..i] + [members[i]] == members[..i + 1]
  {
  }

  /** `json_value_deep_copy`: fails only when an object repeats a name. */
  method DeepCopy(v: Json) returns (r: Option<Json>)
    requires WellFormed(v)
    ensures r == Some(v) && Equals(v, r.value)
    decreases v
  {
    EqualsReflexive(v);
    match v
    case Arr(items) =>
      var copies: seq<Json> := [];
      for i := 0 to |items|
        invariant copies == items[..i]
      {
        var c := DeepCopy(items[i]);
        if c.None? {
          return None;
        }
        copies := copies + [c.value];
      }
      assert items[..|items|] == items;
      return Some(Arr(copies));
    case Obj(members) =>
      var copies: seq<Member> := [];
      for i := 0 to |members|
        invariant copies == members[..i]
      {
        var key := members[i].name;
        LookupAt(members, i);
        NameIsNew(members, i);
        var c := DeepCopy(Lookup(members, key).value);
        if c.None? || HasName(copies, key) {
          return None;
        }
        copies := copies + [Member(key, c.value)];
      }
      assert members[..|members|] == members;
      return Some(Obj(copies));
    case _ => return Some(v);
  }

  // --- Validation -----------------------------------------------------------------

  predicate SameType(a: Json, b: Json) {
    match a
    case Null => b.Null?
    case Bool(_) => b.Bool?
    case Num(_) => b.Num?
    case Str(_) => b.Str?
    case Arr(_) => b.Arr?
    case Obj(_) => b.Obj?
  }

  /** `json_validate`; without `counted`, its comparison of member counts is left out. */
  predicate Validates(schema: Json, value: Json, counted: bool) {
    match schema
    case Null => true
    case Arr(items) =>
      && value.Arr?
      && (items == [] || forall i :: 0 <= i < |value.items| ==> Validates(items[0], value.items[i], counted))
    case Obj(members) =>
      && value.Obj?
      && (counted ==> |value.members| >= |members|)
      && forall i :: 0 <= i < |members| ==>
        var found := Lookup(value.members, members[i].name);
        found.Some? && Validates(members[i].value, found.value, counted)
    case _ => SameType(schema, value)
  }

  /** The loops of `json_validate`. */
  method JsonValidate(schema: Json, value: Json) returns (ok: bool)
    requires WellFormed(schema) && WellFormed(value)
    ensures ok <==> Validates(schema, value, true)
    decreases schema
  {
    if !SameType(schema, value) && !schema.Null? {
      return false;
    }
    match schema
    case Arr(items) =>
      if |items| == 0 {
        return true;
      }
      for i := 0 to |value.items|
        invariant forall k :: 0 <= k < i ==> Validates(items[0], value.items[k], true)
      {
        var good := JsonValidate(items[0], value.items[i]);
        if !good {
          return false;
        }
      }
      return true;
    case Obj(members) =>
      var count := |members|;
      if count == 0 {
        return true;
      } else if |value.members| < count {
        return false;
      }
      for i := 0 to count
        invariant forall k :: 0 <= k < i ==>
          var found := Lookup(value.members, members[k].name);
          found.Some? && Validates(members[k].value, found.value, true)
      {
        var key := members[i].name;
        LookupAt(members, i);
        LookupIsSomeIff(value.members, key);
        var found := Lookup(value.members, key);
        if found.None? {
          return false;
        }
        var good := JsonValidate(Lookup(members, key).value, found.value);
        if !good {
          return false;
        }
      }
      return true;
    case _ => return true;
  }

  /**
   What the header promises of each schema: null accepts every value; a boolean, number or
   string accepts exactly the values of its own type, whatever they hold; an empty array and
   an empty object accept all arrays and all objects.
   */
  lemma SchemaTypes(s: Json, v: Json)
    ensures s.Null? ==> Validates(s, v, true)
    ensures s.Bool? ==> (Validates(s, v, true) <==> v.Bool?)
    ensures s.Num? ==> (Validates(s, v, true) <==> v.Num?)
    ensures s.Str? ==> (Validates(s, v, true) <==> v.Str?)
    ensures s == Arr([]) ==> (Validates(s, v, true) <==> v.Arr?)
    ensures s == Obj([]) ==> (Validates(s, v, true) <==> v.Obj?)
  {
  }

  /** An array schema applies its first element to all elements and ignores its others. */
  lemma ArraySchema(first: Json, others: seq<Json>, v: Json)
    ensures Validates(Arr([first] + others), v, true) <==>
      v.Arr? && forall x :: x in v.items ==> Validates(first, x, true)
  {
    var s := [first] + others;
    assert s[0] == first;
    if v.Arr? && forall x :: x in v.items ==> Validates(first, x, true) {
      forall i | 0 <= i < |v.items|
        ensures Validates(s[0], v.items[i], true)
      {
        assert v.items[i] in v.items;
      }
    }
  }

  /** Some member of the value has the name of `m` and a value that `m` accepts. */
  ghost predicate Meets(m: Member, members: seq<Member>) {
    exists n :: n in members && n.name == m.name && Validates(m.value, n.value, true)
  }

  lemma MeetsIsLookup(m: Member, members: seq<Member>)
    requires Distinct(members)
    ensures Meets(m, members) <==>
      Lookup(members, m.name).Some? && Validates(m.value, Lookup(members, m.name).value, true)
  {
    hide Validates, Lookup;
    LookupIsSomeIff(members, m.name);
    if Meets(m, members) {
      var n :| n in members && n.name == m.name && Validates(m.value, n.value, true);
      var j :| 0 <= j < |members| && members[j] == n;
      LookupAt(members, j);
    }
  }

  /** An object schema asks for its names, each with a value its own accepts, in any order. */
  lemma ObjectSchema(members: seq<Member>, v: Json)
    requires WellFormed(Obj(members)) && WellFormed(v)
    ensures Validates(Obj(members), v, true) <==> v.Obj? && forall m :: m in members ==> Meets(m, v.members)
  {
    hide Meets, Lookup;
    if v.Obj? {
      forall i | 0 <= i < |members|
        ensures Meets(members[i], v.members) <==>
          && Lookup(v.members, members[i].name).Some?
          && Validates(members[i].value, Lookup(v.members, members[i].name).value, true)
      {
        MeetsIsLookup(members[i], v.members);
      }
      if forall m :: m in members ==> Meets(m, v.members) {
        forall i | 0 <= i < |members|
          ensures HasName(v.members, members[i].name)
        {
          assert Meets(members[i], v.members);
          LookupIsSomeIff(v.members, members[i].name);
        }
        NamesPigeonhole(members, v.members);
      }
    }
  }

  lemma LookupIsWellFormed(members: seq<Member>, name: Bytes)
    requires WellFormed(Obj(members)) && Lookup(members, name).Some?
    ensures WellFormed(Lookup(members, name).value)
  {
    LookupIsSomeIff(members, name);
  }

  /** The comparison of counts is only a shortcut. */
  lemma {:induction false} CountCheckIsRedundant(schema: Json, value: Json)
    requires WellFormed(schema) && WellFormed(value)
    ensures Validates(schema, value, true) <==> Validates(schema, value, false)
    decreases schema
  {
    match schema
    case Arr(items) =>
      if items != [] && value.Arr? {
        forall i | 0 <= i < |value.items|
          ensures Validates(items[0], value.items[i], true) <==> Validates(items[0], value.items[i], false)
        {
          CountCheckIsRedundant(items[0], value.items[i]);
        }
      }
    case Obj(members) =>
      if value.Obj? {
        forall i | 0 <= i < |members| && Lookup(value.members, members[i].name).Some?
          ensures
            var v := Lookup(value.members, members[i].name).value;
            Validates(members[i].value, v, true) <==> Validates(members[i].value, v, false)
        {
          LookupIsWellFormed(value.members, members[i].name);
          CountCheckIsRedundant(members[i].value, Lookup(value.members, members[i].name).value);
        }
        if Validates(schema, value, false) {
          forall i | 0 <= i < |members|
            ensures HasName(value.members, members[i].name)
          {
            LookupIsSomeIff(value.members, members[i].name);
          }
          NamesPigeonhole(members, value.members);
        }
      }
    case _ =>
  }

  /** No array of the tree is empty. */
  ghost predicate NoEmptyArray(v: Json) {
    match v
    case Arr(items) => items != [] && forall i :: 0 <= i < |items| ==> NoEmptyArray(items[i])
    case Obj(members) => forall i :: 0 <= i < |members| ==> NoEmptyArray(members[i].value)
    case _ => true
  }

  /**
   The schema `s` accepts everything that the schema `t` accepts: a walk over both, in which an
   array schema without elements is covered only where every element is accepted.
   */
  predicate Covers(s: Json, t: Json) {
    match s
    case Null => true
    case Arr(items) =>
      && t.Arr?
      && (items == [] || if t.items == [] then items[0].Null? else Covers(items[0], t.items[0]))
    case Obj(members) =>
      && t.Obj?
      && forall i :: 0 <= i < |members| ==>
        var found := Lookup(t.members, members[i].name);
        found.Some? && Covers(members[i].value, found.value)
    case _ => SameType(s, t)
  }

  lemma {:induction false} CoversIsEnough(s: Json, t: Json, v: Json)
    requires WellFormed(s) && WellFormed(t) && WellFormed(v)
    requires Covers(s, t) && Validates(t, v, false)
    ensures Validates(s, v, false)
    decreases s
  {
    match s
    case Arr(items) =>
      if items != [] && t.items != [] {
        forall i | 0 <= i < |v.items|
          ensures Validates(items[0], v.items[i], false)
        {
          CoversIsEnough(items[0], t.items[0], v.items[i]);
        }
      }
    case Obj(members) =>
      forall i | 0 <= i < |members|
        ensures Lookup(v.members, members[i].name).Some?
        ensures Validates(members[i].value, Lookup(v.members, members[i].name).value, false)
      {
        var name := members[i].name;
        LookupIsSomeIff(t.members, name);
        var j :| 0 <= j < |t.members| && t.members[j] == Member(name, Lookup(t.members, name).value);
        LookupIsWellFormed(v.members, name);
        CoversIsEnough(members[i].value, t.members[j].value, Lookup(v.members, name).value);
      }
    case _ =>
  }

  /** A value that a schema accepts, with arrays left empty. */
  function Instance(t: Json): Json {
    match t
    case Arr(_) => Arr([])
    case Obj(members) => Obj(Instances(members))
    case _ => t
  }

  function Instances(members: seq<Member>): (r: seq<Member>)
    ensures |r| == |members|
    ensures forall i :: 0 <= i < |r| ==> r[i] == Member(members[i].name, Instance(members[i].value))
  {
    if members == [] then []
    else [Member(members[0].name, Instance(members[0].value))] + Instances(members[1..])
  }

  lemma {:induction false} InstanceIsValid(t: Json)
    requires WellFormed(t)
    ensures WellFormed(Instance(t)) && Validates(t, Instance(t), false)
    decreases t
  {
    if t.Obj? {
      forall i | 0 <= i < |t.members|
        ensures WellFormed(Instance(t.members[i].value))
        ensures Validates(t.members[i].value, Instance(t.members[i].value), false)
      {
        InstanceIsValid(t.members[i].value);
      }
      var r := Instances(t.members);
      forall i | 0 <= i < |t.members|
        ensures Lookup(r, t.members[i].name) == Some(Instance(t.members[i].value))
      {
        LookupAt(r, i);
      }
    }
  }

  /** Without cover there is a value that `t` accepts and `s` refuses. */
  lemma {:induction false} UncoveredIsRefused(s: Json, t: Json) returns (v: Json)
    requires WellFormed(s) && WellFormed(t) && !Covers(s, t)
    ensures WellFormed(v) && Validates(t, v, false) && !Validates(s, v, false)
    decreases s
  {
    v := Instance(t);
    InstanceIsValid(t);
    match s
    case Arr(items) =>
      if t.Arr? {
        var w;
        if t.items == [] {
          w := if items[0].Bool? then Num(0.0) else Bool(true);
        } else {
          w := UncoveredIsRefused(items[0], t.items[0]);
        }
        v := Arr([w]);
        assert v.items[0] == w;
      } else if t.Null? {
        assert v == Json.Null;
      }
    case Obj(members) =>
      if t.Obj? {
        v := UncoveredMember(members, t.members);
      }
    case _ =>
  }

  lemma {:induction false} UncoveredMember(members: seq<Member>, others: seq<Member>) returns (v: Json)
    requires WellFormed(Obj(members)) && WellFormed(Obj(others)) && !Covers(Obj(members), Obj(others))
    ensures WellFormed(v) && Validates(Obj(others), v, false) && !Validates(Obj(members), v, false)
    decreases members
  {
    var r := Instances(others);
    InstanceIsValid(Obj(others));
    var i :| 0 <= i < |members| &&
      (Lookup(others, members[i].name).Some? ==> !Covers(members[i].value, Lookup(others, members[i].name).value));
    var name := members[i].name;
    LookupIsSomeIff(others, name);
    if Lookup(others, name).None? {
      v := Obj(r);
      LookupIsSomeIff(r, name);
    } else {
      var j :| 0 <= j < |others| && others[j] == Member(name, Lookup(others, name).value);
      var w := UncoveredIsRefused(members[i].value, others[j].value);
      v := Obj(r[j := Member(name, w)]);
      ReplacedInstance(others, j, w);
    }
  }

  /** An instance of an object with one value replaced. */
  lemma ReplacedInstance(others: seq<Member>, j: nat, w: Json)
    requires WellFormed(Obj(others)) && j < |others| && WellFormed(w) && Validates(others[j].value, w, false)
    ensures
      var v := Obj(Instances(others)[j := Member(others[j].name, w)]);
      WellFormed(v) && Validates(Obj(others), v, false) && Lookup(v.members, others[j].name) == Some(w)
  {
    hide Lookup;
    var r := Instances(others);
    var ms := r[j := Member(others[j].name, w)];
    forall k | 0 <= k < |others|
      ensures Lookup(ms, others[k].name) == Some(ms[k].value)
      ensures WellFormed(ms[k].value) && Validates(others[k].value, ms[k].value, false)
    {
      LookupAt(ms, k);
      InstanceIsValid(others[k].value);
    }
  }

  /** One schema accepts all that another accepts exactly when it covers it. */
  lemma AcceptsAllIff(s: Json, t: Json)
    requires WellFormed(s) && WellFormed(t)
    ensures (forall v :: WellFormed(v) && Validates(t, v, true) ==> Validates(s, v, true)) <==> Covers(s, t)
  {
    if Covers(s, t) {
      forall v | WellFormed(v) && Validates(t, v, true)
        ensures Validates(s, v, true)
      {
        CountCheckIsRedundant(t, v);
        CountCheckIsRedundant(s, v);
        CoversIsEnough(s, t, v);
      }
    } else {
      var v := UncoveredIsRefused(s, t);
      CountCheckIsRedundant(t, v);
      CountCheckIsRedundant(s, v);
    }
  }

  /** A schema covers the values it accepts, unless they contain an empty array. */
  lemma {:induction false} AcceptedIsCovered(s: Json, t: Json)
    requires WellFormed(s) && WellFormed(t) && NoEmptyArray(t) && Validates(s, t, true)
    ensures Covers(s, t)
    decreases s
  {
    match s
    case Arr(items) =>
      if items != [] {
        AcceptedIsCovered(items[0], t.items[0]);
      }
    case Obj(members) =>
      forall i | 0 <= i < |members|
        ensures Covers(members[i].value, Lookup(t.members, members[i].name).value)
      {
        LookupIsSomeIff(t.members, members[i].name);
        AcceptedIsCovered(members[i].value, Lookup(t.members, members[i].name).value);
      }
    case _ =>
  }

  /** So validation is transitive where no empty array lies between. */
  lemma {:induction false} ValidatesTransitive(s: Json, t: Json, v: Json)
    requires WellFormed(s) && WellFormed(t) && WellFormed(v) && NoEmptyArray(t)
    requires Validates(s, t, true) && Validates(t, v, true)
    ensures Validates(s, v, true)
  {
    hide Validates, Covers, WellFormed, NoEmptyArray;
    AcceptedIsCovered(s, t);
    AcceptsAllIff(s, t);
    assert Validates(t, v, true) ==> Validates(s, v, true);
  }

  /** The condition is needed: an empty array accepts every array and satisfies every array schema. */
  lemma EmptyArrayBreaksTransitivity(s: Json, v: Json)
    requires !Validates(s, v, true)
    ensures Validates(Arr([s]), Arr([]), true) && Validates(Arr([]), Arr([v]), true)
    ensures !Validates(Arr([s]), Arr([v]), true)
  {
    assert Arr([v]).items[0] == v;
  }

  /** Further members never turn a valid object invalid. */
  lemma ValidatesMoreMembers(s: Json, members: seq<Member>, more: seq<Member>)
    requires WellFormed(s) && WellFormed(Obj(members + more)) && Validates(s, Obj(members), true)
    ensures Validates(s, Obj(members + more), true)
  {
    if s.Obj? {
      forall i | 0 <= i < |s.members|
        ensures Lookup(members + more, s.members[i].name) == Lookup(members, s.members[i].name)
      {
        LookupInFront(members, more, s.members[i].name);
      }
    }
  }

  lemma {:induction false} LookupInFront(members: seq<Member>, more: seq<Member>, name: Bytes)
    requires Lookup(members, name).Some?
    ensures Lookup(members + more, name) == Lookup(members, name)
  {
    if members[0].name != name {
      assert (members + more)[1..] == members[1..] + more;
      LookupInFront(members[1..], more, name);
    }
  }
}
