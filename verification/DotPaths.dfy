/**
 Dotted paths of lib/parson.c: reading, writing and removing through nested objects. An
 object is its member list; an update returns the list the in-place code leaves behind.
 */
module DotPaths {
  import opened Bytes
  import opened Json
  import opened Compare
  import opened Objects

  // --- The operations -------------------------------------------------------------

  /** `strchr(path, '.')`. */
  function FirstDot(path: Bytes): (r: Option<nat>)
    ensures r.Some? ==> r.value < |path| && path[r.value] == DOT
  {
    if path == [] then None
    else if path[0] == DOT then Some(0)
    else
      match FirstDot(path[1..])
      case None => None
      case Some(i) => Some(i + 1)
  }

  /** The names of a path contain no dot: it is split at its first dot. */
  lemma {:induction false} FirstDotIsFirst(path: Bytes)
    ensures match FirstDot(path)
      case Some(i) => forall k :: 0 <= k < i ==> path[k] != DOT
      case None => forall k :: 0 <= k < |path| ==> path[k] != DOT
  {
    if path != [] && path[0] != DOT {
      FirstDotIsFirst(path[1..]);
      assert forall k :: 0 < k < |path| ==> path[k] == path[1..][k - 1];
    }
  }

  /** `json_value_get_object`. */
  function AsObject(v: Option<Json>): Option<seq<Member>> {
    match v
    case Some(Obj(members)) => Some(members)
    case _ => None
  }

  /** `json_object_dotget_value`; None for a null object. */
  function DotGet(root: Option<seq<Member>>, path: Bytes): Option<Json>
    decreases |path|
  {
    match FirstDot(path)
    case None => (match root case None => None case Some(members) => Lookup(members, path))
    case Some(i) =>
      var inner := match root case None => None case Some(members) => Lookup(members, path[..i]);
      DotGet(AsObject(inner), path[i + 1..])
  }

  datatype Outcome = Outcome(members: seq<Member>, ok: bool)

  /** `json_object_dotset_value`, for a value that already has a parent or not. */
  function DotSet(members: seq<Member>, path: Bytes, value: Json, parented: bool): Outcome
    decreases |path|
  {
    match FirstDot(path)
    case None => if parented then Outcome(members, false) else Outcome(SetMember(members, path, value), true)
    case Some(i) =>
      var head, tail := path[..i], path[i + 1..];
      match AsObject(Lookup(members, head))
      case Some(inner) =>
        var r := DotSet(inner, tail, value, parented);
        Outcome(SetMember(members, head, Obj(r.members)), r.ok)
      case None =>
        match AddMember(members, head, Obj([]))
        case None => Outcome(members, false)
        case Some(grown) =>
          var r := DotSet([], tail, value, parented);
          Outcome(SetMember(grown, head, Obj(r.members)), r.ok)
  }

  /** `json_object_dotremove`. */
  function DotRemove(members: seq<Member>, path: Bytes): Option<seq<Member>>
    decreases |path|
  {
    match FirstDot(path)
    case None => RemoveMember(members, path)
    case Some(i) =>
      match AsObject(Lookup(members, path[..i]))
      case None => None
      case Some(inner) =>
        match DotRemove(inner, path[i + 1..])
        case None => None
        case Some(after) => Some(SetMember(members, path[..i], Obj(after)))
  }

  // --- Lookup after an update -----------------------------------------------------

  lemma {:induction false} LookupAfterSet(members: seq<Member>, name: Bytes, value: Json, other: Bytes)
    ensures Lookup(SetMember(members, name, value), other) ==
      if other == name then Some(value) else Lookup(members, other)
  {
    if members == [] {
      assert [Member(name, value)][1..] == [];
    } else {
      var after := SetMember(members, name, value);
      LookupAfterSet(members[1..], name, value, other);
      if members[0].name == name {
        assert after[1..] == members[1..];
      } else {
        assert after[0] == members[0];
        assert after[1..] == SetMember(members[1..], name, value);
      }
    }
  }

  lemma {:induction false} SetSame(members: seq<Member>, name: Bytes, value: Json)
    requires Lookup(members, name) == Some(value)
    ensures SetMember(members, name, value) == members
  {
    if members[0].name != name {
      SetSame(members[1..], name, value);
      assert SetMember(members, name, value) == [members[0]] + SetMember(members[1..], name, value);
    }
  }

  lemma SetAfterAdd(members: seq<Member>, name: Bytes, first: Json, value: Json)
    requires !HasName(members, name)
    ensures SetMember(members + [Member(name, first)], name, value) == members + [Member(name, value)]
    ensures SetMember(members, name, value) == members + [Member(name, value)]
  {
    var grown := members + [Member(name, first)];
    assert grown[|members|].name == name;
    assert forall k :: 0 <= k < |members| ==> grown[k] == members[k] && grown[k].name != name;
  }

  /** Creating an intermediate object and filling it is setting the filled object. */
  lemma DotSetStep(members: seq<Member>, path: Bytes, value: Json, parented: bool, i: nat)
    requires FirstDot(path) == Some(i)
    ensures
      var found := Lookup(members, path[..i]);
      var r := DotSet(members, path, value, parented);
      if found.Some? && !found.value.Obj? then r == Outcome(members, false)
      else
        var inner := if found.Some? then found.value.members else [];
        var s := DotSet(inner, path[i + 1..], value, parented);
        r == Outcome(SetMember(members, path[..i], Obj(s.members)), s.ok)
  {
    hide FirstDot, Lookup, SetMember;
    var head := path[..i];
    LookupIsSomeIff(members, head);
    if !HasName(members, head) {
      SetAfterAdd(members, head, Obj([]), Obj(DotSet([], path[i + 1..], value, parented).members));
    }
  }

  lemma LookupIsMap(members: seq<Member>, name: Bytes)
    ensures Lookup(members, name) == if name in AsMap(members) then Some(AsMap(members)[name]) else None
  {
    LookupIsSomeIff(members, name);
    HasNameIsMembership(members, name);
  }

  lemma LookupAfterRemove(members: seq<Member>, name: Bytes, other: Bytes)
    requires Distinct(members) && RemoveMember(members, name).Some?
    ensures Lookup(RemoveMember(members, name).value, other) ==
      if other == name then None else Lookup(members, other)
  {
    RemoveRefines(members, name);
    LookupIsMap(members, other);
    LookupIsMap(RemoveMember(members, name).value, other);
  }

  /** Reading a path in two parts: the second is read in the object the first leads to. */
  lemma {:induction false} DotGetJoins(root: Option<seq<Member>>, p: Bytes, q: Bytes)
    ensures DotGet(root, p + [DOT] + q) == DotGet(AsObject(DotGet(root, p)), q)
    decreases |p|
  {
    hide Lookup;
    var path := p + [DOT] + q;
    match FirstDot(p)
    case None =>
      FirstDotOfJoin(p, q);
      assert path[..|p|] == p && path[|p| + 1..] == q;
    case Some(i) =>
      FirstDotOfJoin(p, q);
      assert path[..i] == p[..i] && path[i + 1..] == p[i + 1..] + [DOT] + q;
      var inner := match root case None => None case Some(members) => Lookup(members, p[..i]);
      DotGetJoins(AsObject(inner), p[i + 1..], q);
  }

  lemma {:induction false} FirstDotOfJoin(p: Bytes, q: Bytes)
    ensures FirstDot(p + [DOT] + q) == match FirstDot(p) case Some(i) => Some(i) case None => Some(|p|)
  {
    var path := p + [DOT] + q;
    if p == [] {
      assert path == [DOT] + q;
    } else if p[0] != DOT {
      assert path[1..] == p[1..] + [DOT] + q;
      FirstDotOfJoin(p[1..], q);
    }
  }

  // --- Writing --------------------------------------------------------------------

  /** Some name before the last belongs to a value that is no object. */
  ghost predicate Blocked(members: seq<Member>, path: Bytes)
    decreases |path|
  {
    match FirstDot(path)
    case None => false
    case Some(i) =>
      match Lookup(members, path[..i])
      case None => false
      case Some(Obj(inner)) => Blocked(inner, path[i + 1..])
      case Some(_) => true
  }

  /** A write succeeds exactly when the value has no parent and no name on the way is taken by a non-object. */
  lemma {:induction false} DotSetSucceedsIff(members: seq<Member>, path: Bytes, value: Json, parented: bool)
    ensures DotSet(members, path, value, parented).ok <==> !parented && !Blocked(members, path)
    decreases |path|
  {
    match FirstDot(path)
    case None =>
    case Some(i) =>
      DotSetStep(members, path, value, parented, i);
      match Lookup(members, path[..i])
      case None =>
        DotSetSucceedsIff([], path[i + 1..], value, parented);
        NothingBlocks(path[i + 1..]);
      case Some(Obj(inner)) => DotSetSucceedsIff(inner, path[i + 1..], value, parented);
      case _ =>
  }

  lemma NothingBlocks(path: Bytes)
    ensures !Blocked([], path)
  {
  }

  /** After a successful write, reading the same path gives the value. */
  lemma {:induction false} DotSetThenGet(members: seq<Member>, path: Bytes, value: Json, parented: bool)
    requires DotSet(members, path, value, parented).ok
    ensures DotGet(Some(DotSet(members, path, value, parented).members), path) == Some(value)
    decreases |path|
  {
    hide SetMember, Lookup, FirstDot;
    match FirstDot(path)
    case None => LookupAfterSet(members, path, value, path);
    case Some(i) =>
      DotSetStep(members, path, value, parented, i);
      var found := Lookup(members, path[..i]);
      var inner := if found.Some? then found.value.members else [];
      var s := DotSet(inner, path[i + 1..], value, parented);
      DotSetThenGet(inner, path[i + 1..], value, parented);
      LookupAfterSet(members, path[..i], Obj(s.members), path[..i]);
  }

  /** Neither path leads through the other: they part at some name. */
  predicate Diverge(p: Bytes, q: Bytes)
    decreases |p|
  {
    match (FirstDot(p), FirstDot(q))
    case (None, None) => p != q
    case (None, Some(j)) => p != q[..j]
    case (Some(i), None) => p[..i] != q
    case (Some(i), Some(j)) => p[..i] != q[..j] || Diverge(p[i + 1..], q[j + 1..])
  }

  lemma {:induction false} NothingInNothing(path: Bytes)
    ensures DotGet(None, path) == None
    ensures DotGet(Some([]), path) == None
    decreases |path|
  {
    match FirstDot(path)
    case None =>
    case Some(i) => NothingInNothing(path[i + 1..]);
  }

  /** A write, successful or not, leaves every diverging path as it was. */
  lemma {:induction false} DotSetKeepsOthers(
    members: seq<Member>, path: Bytes, value: Json, parented: bool, other: Bytes)
    requires Diverge(path, other)
    ensures DotGet(Some(DotSet(members, path, value, parented).members), other) == DotGet(Some(members), other)
    decreases |path|
  {
    hide SetMember, Lookup, FirstDot;
    match FirstDot(path)
    case None =>
      match FirstDot(other) {
        case None => LookupAfterSet(members, path, value, other);
        case Some(j) => LookupAfterSet(members, path, value, other[..j]);
      }
    case Some(i) =>
      var head, tail := path[..i], path[i + 1..];
      DotSetStep(members, path, value, parented, i);
      var found := Lookup(members, head);
      if found.None? || found.value.Obj? {
        var inner := if found.Some? then found.value.members else [];
        var s := DotSet(inner, tail, value, parented);
        match FirstDot(other) {
          case None => LookupAfterSet(members, head, Obj(s.members), other);
          case Some(j) =>
            LookupAfterSet(members, head, Obj(s.members), other[..j]);
            if head == other[..j] {
              DotSetKeepsOthers(inner, tail, value, parented, other[j + 1..]);
              NothingInNothing(other[j + 1..]);
            }
        }
      }
  }

  /** The write creates an intermediate object. */
  ghost predicate Creates(members: seq<Member>, path: Bytes)
    decreases |path|
  {
    match FirstDot(path)
    case None => false
    case Some(i) =>
      match Lookup(members, path[..i])
      case None => true
      case Some(Obj(inner)) => Creates(inner, path[i + 1..])
      case Some(_) => false
  }

  /**
   A failed write changes the object exactly when the value already had a parent and an
   intermediate object was missing: only then is one created before the failure.
   */
  lemma {:induction false} DotSetFailure(members: seq<Member>, path: Bytes, value: Json, parented: bool)
    requires !DotSet(members, path, value, parented).ok
    ensures DotSet(members, path, value, parented).members == members <==> !(parented && Creates(members, path))
    decreases |path|
  {
    match FirstDot(path)
    case None =>
    case Some(i) =>
      var head, tail := path[..i], path[i + 1..];
      DotSetStep(members, path, value, parented, i);
      match Lookup(members, head)
      case None =>
        DotSetSucceedsIff([], tail, value, parented);
        NothingBlocks(tail);
        LookupAfterSet(members, head, Obj(DotSet([], tail, value, parented).members), head);
      case Some(Obj(inner)) =>
        var s := DotSet(inner, tail, value, parented);
        DotSetFailure(inner, tail, value, parented);
        LookupAfterSet(members, head, Obj(s.members), head);
        SetSame(members, head, Obj(inner));
      case _ =>
  }

  /** Without a parent, a failed write changes nothing. */
  lemma DotSetFailureChangesNothing(members: seq<Member>, path: Bytes, value: Json)
    requires !DotSet(members, path, value, false).ok
    ensures DotSet(members, path, value, false).members == members
  {
    DotSetFailure(members, path, value, false);
  }

  /** Writing keeps the tree well-formed. */
  lemma {:induction false} DotSetKeepsWellFormed(members: seq<Member>, path: Bytes, value: Json, parented: bool)
    requires WellFormed(Obj(members)) && WellFormed(value) && NulFree(path)
    ensures WellFormed(Obj(DotSet(members, path, value, parented).members))
    decreases |path|
  {
    match FirstDot(path)
    case None => SetKeepsWellFormed(members, path, value);
    case Some(i) =>
      var head, tail := path[..i], path[i + 1..];
      DotSetStep(members, path, value, parented, i);
      var found := Lookup(members, head);
      if found.None? || found.value.Obj? {
        var inner := if found.Some? then found.value.members else [];
        if found.Some? {
          LookupIsWellFormed(members, head);
        }
        DotSetKeepsWellFormed(inner, tail, value, parented);
        SetKeepsWellFormed(members, head, Obj(DotSet(inner, tail, value, parented).members));
      }
  }

  lemma SetKeepsWellFormed(members: seq<Member>, name: Bytes, value: Json)
    requires WellFormed(Obj(members)) && WellFormed(value) && NulFree(name)
    ensures WellFormed(Obj(SetMember(members, name, value)))
  {
    Objects.SetRefines(members, name, value);
  }

  // --- Removing -------------------------------------------------------------------

  /** A removal succeeds exactly when the path leads to a value. */
  lemma {:induction false} DotRemoveSucceedsIff(members: seq<Member>, path: Bytes)
    ensures DotRemove(members, path).Some? <==> DotGet(Some(members), path).Some?
    decreases |path|
  {
    match FirstDot(path)
    case None => LookupIsSomeIff(members, path);
    case Some(i) =>
      match AsObject(Lookup(members, path[..i]))
      case None => NothingInNothing(path[i + 1..]);
      case Some(inner) => DotRemoveSucceedsIff(inner, path[i + 1..]);
  }

  /** Afterwards the path leads nowhere, and every diverging path leads where it did. */
  lemma {:induction false} DotRemoveRemoves(members: seq<Member>, path: Bytes, other: Bytes)
    requires WellFormed(Obj(members)) && DotRemove(members, path).Some?
    ensures DotGet(DotRemove(members, path), path) == None
    ensures Diverge(path, other) ==> DotGet(DotRemove(members, path), other) == DotGet(Some(members), other)
    decreases |path|
  {
    hide FirstDot, Lookup, SetMember, RemoveMember;
    match FirstDot(path)
    case None =>
      LookupAfterRemove(members, path, path);
      match FirstDot(other) {
        case None => LookupAfterRemove(members, path, other);
        case Some(j) => LookupAfterRemove(members, path, other[..j]);
      }
    case Some(i) =>
      var head, tail := path[..i], path[i + 1..];
      LookupIsWellFormed(members, head);
      var inner := AsObject(Lookup(members, head)).value;
      var after := DotRemove(inner, tail).value;
      LookupAfterSet(members, head, Obj(after), head);
      match FirstDot(other) {
        case None =>
          DotRemoveRemoves(inner, tail, []);
          LookupAfterSet(members, head, Obj(after), other);
        case Some(j) =>
          DotRemoveRemoves(inner, tail, other[j + 1..]);
          LookupAfterSet(members, head, Obj(after), other[..j]);
      }
  }
}
