/**
 The linear-probing table of lib/hashtable.c, from client sockets to connections. Deletion
 empties its slot and moves nothing back; when that is sound is settled exactly.
 */
module HashTable {
  import opened Bytes

  /** A connection pointer; 0 is NULL. */
  type Handle = nat

  datatype Slot = Empty | Used(key: int, value: Handle)

  // --- Probing --------------------------------------------------------------------

  function Abs(key: int): nat {
    if key < 0 then -key else key
  }

  function Home(key: int, cap: nat): (h: nat)
    requires cap > 0
    ensures h < cap
  {
    Abs(key) % cap
  }

  /** The step of every probe loop, around the end of the table. */
  function Next(h: nat, cap: nat): (r: nat)
    requires h < cap
    ensures r < cap
  {
    if h < cap - 1 then h + 1 else 0
  }

  /** The number of steps from one slot to another. */
  function Steps(from: nat, to: nat, cap: nat): (n: nat)
    requires from < cap && to < cap
    ensures n < cap
  {
    if to >= from then to - from else to + cap - from
  }

  lemma Times(x: int, y: int, c: nat)
    requires x < y
    ensures x * c + c <= y * c
  {
    var d: nat := y - x - 1;
    assert d * c >= 0;
    assert (x + 1 + d) * c == x * c + c + d * c;
  }

  lemma RemainderIsUnique(p: int, q: int, r: int, s: int, cap: nat)
    requires 0 <= r < cap && 0 <= s < cap && p * cap + r == q * cap + s
    ensures r == s
  {
    if p < q {
      Times(p, q, cap);
    } else if q < p {
      Times(q, p, cap);
    }
  }

  lemma Remainder(q: int, r: int, cap: nat)
    requires 0 <= r < cap
    ensures (q * cap + r) % cap == r
  {
    var a := q * cap + r;
    RemainderIsUnique(a / cap, q, a % cap, r, cap);
  }

  /** The steps of the loop are those of arithmetic modulo the capacity. */
  lemma NextIsModulo(h: nat, to: nat, cap: nat)
    requires h < cap && to < cap
    ensures Next(h, cap) == (h + 1) % cap && Steps(h, to, cap) == (to - h) % cap
  {
    if h < cap - 1 {
      Remainder(0, h + 1, cap);
    } else {
      Remainder(1, 0, cap);
    }
    if to >= h {
      Remainder(0, to - h, cap);
    } else {
      Remainder(-1, to - h + cap, cap);
    }
  }

  /** Keys below the capacity are at home in their own slot, and a sign does not matter. */
  lemma HomeOfKey(key: int, cap: nat)
    requires cap > 0
    ensures 0 <= key < cap ==> Home(key, cap) == key
    ensures Home(-key, cap) == Home(key, cap)
  {
    if 0 <= key < cap {
      Remainder(0, key, cap);
    }
  }

  /** Keys that differ by the capacity share their home. */
  lemma HomeIsPeriodic(key: nat, cap: nat)
    requires cap > 0
    ensures Home(key + cap, cap) == Home(key, cap)
  {
    var q, r := key / cap, key % cap;
    assert key + cap == (q + 1) * cap + r;
    Remainder(q + 1, r, cap);
  }

  /** Slot `j` is passed on the way from `from` to `to`. */
  predicate Passes(from: nat, to: nat, j: nat, cap: nat)
    requires from < cap && to < cap && j < cap
  {
    Steps(from, j, cap) < Steps(from, to, cap)
  }

  /** The condition that ends a probe loop. */
  predicate Stops(slots: seq<Slot>, key: int, i: nat)
    requires i < |slots|
  {
    slots[i].Empty? || slots[i].key == key
  }

  /** The probe loop with at most `left` slots to look at. */
  function ProbeFrom(slots: seq<Slot>, key: int, h: nat, left: nat): (r: Option<nat>)
    requires h < |slots|
    ensures r.Some? ==> r.value < |slots| && Stops(slots, key, r.value)
    decreases left
  {
    if left == 0 then None
    else if Stops(slots, key, h) then Some(h)
    else ProbeFrom(slots, key, Next(h, |slots|), left - 1)
  }

  /** Where the probe loop for a key ends; None when it goes around for ever. */
  function Probe(slots: seq<Slot>, key: int): (r: Option<nat>)
    requires slots != []
    ensures r.Some? ==> r.value < |slots| && Stops(slots, key, r.value)
  {
    ProbeFrom(slots, key, Home(key, |slots|), |slots|)
  }

  /** The first slot on the key's way around the table where a probe stops. */
  ghost predicate FirstStop(slots: seq<Slot>, key: int, i: nat)
    requires slots != []
  {
    && i < |slots| && Stops(slots, key, i)
    && forall j :: 0 <= j < |slots| && Passes(Home(key, |slots|), i, j, |slots|) ==> !Stops(slots, key, j)
  }

  lemma {:induction false} ProbeFromMeaning(slots: seq<Slot>, key: int, h: nat)
    requires slots != [] && h < |slots|
    requires forall j :: 0 <= j < |slots| && Passes(Home(key, |slots|), h, j, |slots|) ==> !Stops(slots, key, j)
    ensures
      match ProbeFrom(slots, key, h, |slots| - Steps(Home(key, |slots|), h, |slots|))
      case Some(i) => FirstStop(slots, key, i)
      case None => forall j :: 0 <= j < |slots| ==> !Stops(slots, key, j)
    decreases |slots| - Steps(Home(key, |slots|), h, |slots|)
  {
    var cap := |slots|;
    var home := Home(key, cap);
    if !Stops(slots, key, h) {
      var next := Next(h, cap);
      if next == home {
        assert forall j :: 0 <= j < cap && j != h ==> Passes(home, h, j, cap);
      } else {
        assert forall j :: 0 <= j < cap && Passes(home, next, j, cap) ==> j == h || Passes(home, h, j, cap);
        ProbeFromMeaning(slots, key, next);
      }
    }
  }

  /** A probe ends at the first stop on its way, and misses one only if there is none. */
  lemma ProbeMeaning(slots: seq<Slot>, key: int)
    requires slots != []
    ensures
      match Probe(slots, key)
      case Some(i) => FirstStop(slots, key, i)
      case None => forall j :: 0 <= j < |slots| ==> !Stops(slots, key, j)
  {
    ProbeFromMeaning(slots, key, Home(key, |slots|));
  }

  lemma FirstStopUnique(slots: seq<Slot>, key: int, i: nat, j: nat)
    requires slots != [] && FirstStop(slots, key, i) && FirstStop(slots, key, j)
    ensures i == j
  {
    var home := Home(key, |slots|);
    assert !Passes(home, i, j, |slots|) && !Passes(home, j, i, |slots|);
  }

  /** The slot after `n` steps of the loop. */
  function Walk(h: nat, n: nat, cap: nat): (r: nat)
    requires h < cap
    ensures r < cap
  {
    if n == 0 then h else Next(Walk(h, n - 1, cap), cap)
  }

  lemma {:induction false} WalkReaches(h: nat, n: nat, cap: nat)
    requires h < cap && n < cap
    ensures Steps(h, Walk(h, n, cap), cap) == n
  {
    if n > 0 {
      WalkReaches(h, n - 1, cap);
    }
  }

  /** No slot is free and none holds the key. */
  predicate FullWithout(slots: seq<Slot>, key: int) {
    forall i :: 0 <= i < |slots| ==> slots[i].Used? && slots[i].key != key
  }

  /** The loop of `find` runs for ever. */
  ghost predicate Diverges(slots: seq<Slot>, key: int)
    requires slots != []
  {
    forall n: nat :: !Stops(slots, key, Walk(Home(key, |slots|), n, |slots|))
  }

  /** The probe loop of `find` never ends exactly when the table is full and lacks the key. */
  lemma ProbeDiverges(slots: seq<Slot>, key: int)
    requires slots != []
    ensures Diverges(slots, key) <==> FullWithout(slots, key)
    ensures Probe(slots, key).None? <==> FullWithout(slots, key)
  {
    ProbeMeaning(slots, key);
    var cap, home := |slots|, Home(key, |slots|);
    if Diverges(slots, key) {
      forall i | 0 <= i < cap
        ensures slots[i].Used? && slots[i].key != key
      {
        var n := Steps(home, i, cap);
        WalkReaches(home, n, cap);
        assert !Stops(slots, key, Walk(home, n, cap));
      }
    }
    if FullWithout(slots, key) {
      forall n: nat
        ensures !Stops(slots, key, Walk(home, n, cap))
      {
      }
      assert forall i :: 0 <= i < cap ==> !Stops(slots, key, i);
    }
    if Probe(slots, key).None? {
      assert forall i :: 0 <= i < cap ==> !Stops(slots, key, i);
    }
  }

  // --- Well-formed tables ---------------------------------------------------------

  predicate UniqueKeys(slots: seq<Slot>) {
    forall i, j :: 0 <= i < j < |slots| && slots[i].Used? && slots[j].Used? ==> slots[i].key != slots[j].key
  }

  /** No slot between a key's home and its place is empty. */
  predicate NoGaps(slots: seq<Slot>)
    requires slots != []
  {
    forall i, j ::
      0 <= i < |slots| && 0 <= j < |slots| && slots[i].Used? && Passes(Home(slots[i].key, |slots|), i, j, |slots|)
      ==> slots[j].Used?
  }

  ghost predicate WellFormed(slots: seq<Slot>) {
    slots != [] && UniqueKeys(slots) && NoGaps(slots)
  }

  ghost predicate HasKey(slots: seq<Slot>, key: int) {
    exists i :: 0 <= i < |slots| && slots[i].Used? && slots[i].key == key
  }

  /** The table holds exactly the entries of the map. */
  ghost predicate Represents(slots: seq<Slot>, m: map<int, Handle>) {
    && (forall i :: 0 <= i < |slots| && slots[i].Used? ==> slots[i].key in m && m[slots[i].key] == slots[i].value)
    && forall k :: k in m ==> HasKey(slots, k)
  }

  /** What `find` does: it returns a node, or NULL, or never returns. */
  datatype Search = Found(value: Handle) | Absent | Endless

  function FindValue(slots: seq<Slot>, key: int): Search
    requires slots != []
  {
    match Probe(slots, key)
    case None => Endless
    case Some(i) => if slots[i].Used? then Found(slots[i].value) else Absent
  }

  /** The same on a map of at most `cap` entries: a full map answers only for its keys. */
  function MapSearch(m: map<int, Handle>, key: int, cap: nat): Search {
    if key in m then Found(m[key]) else if |m| >= cap then Endless else Absent
  }

  /** In a well-formed table every key is found in its place. */
  lemma ProbeFindsKey(slots: seq<Slot>, i: nat)
    requires WellFormed(slots) && i < |slots| && slots[i].Used?
    ensures Probe(slots, slots[i].key) == Some(i)
  {
    var key := slots[i].key;
    forall j | 0 <= j < |slots| && Passes(Home(key, |slots|), i, j, |slots|)
      ensures !Stops(slots, key, j)
    {
      assert slots[j].Used? && j != i;
    }
    assert FirstStop(slots, key, i);
    ProbeMeaning(slots, key);
    FirstStopUnique(slots, key, i, Probe(slots, key).value);
  }

  // --- Counting -------------------------------------------------------------------

  function Count(slots: seq<Slot>): nat {
    if slots == [] then 0 else (if slots[0].Used? then 1 else 0) + Count(slots[1..])
  }

  ghost function Keys(slots: seq<Slot>): set<int> {
    set s | s in slots && s.Used? :: s.key
  }

  lemma {:induction false} CountBound(slots: seq<Slot>)
    ensures Count(slots) <= |slots|
    ensures Count(slots) == |slots| <==> forall i :: 0 <= i < |slots| ==> slots[i].Used?
  {
    if slots != [] {
      CountBound(slots[1..]);
      assert forall i :: 0 < i < |slots| ==> slots[i] == slots[1..][i - 1];
    }
  }

  lemma {:induction false} CountUpdate(slots: seq<Slot>, i: nat, s: Slot)
    requires i < |slots|
    ensures Count(slots[i := s]) ==
      Count(slots) - (if slots[i].Used? then 1 else 0) + (if s.Used? then 1 else 0)
  {
    if i > 0 {
      CountUpdate(slots[1..], i - 1, s);
      assert slots[i := s][1..] == slots[1..][i - 1 := s];
    } else {
      assert slots[i := s][1..] == slots[1..];
    }
  }

  lemma {:induction false} KeysCount(slots: seq<Slot>)
    requires UniqueKeys(slots)
    ensures |Keys(slots)| == Count(slots)
  {
    if slots != [] {
      KeysCount(slots[1..]);
      assert slots == [slots[0]] + slots[1..];
      if slots[0].Used? {
        assert Keys(slots) == {slots[0].key} + Keys(slots[1..]);
        assert slots[0].key !in Keys(slots[1..]);
      } else {
        assert Keys(slots) == Keys(slots[1..]);
      }
    }
  }

  /** The number of occupied slots is the size of the map. */
  lemma CountIsMapSize(slots: seq<Slot>, m: map<int, Handle>)
    requires UniqueKeys(slots) && Represents(slots, m)
    ensures |m| == Count(slots)
  {
    KeysCount(slots);
    assert m.Keys == Keys(slots) by {
      forall k | k in m
        ensures k in Keys(slots)
      {
        var i :| 0 <= i < |slots| && slots[i].Used? && slots[i].key == k;
        assert slots[i] in slots;
      }
    }
    assert |m| == |m.Keys|;
  }

  /** `find` in a well-formed table is the search of the bounded map it represents. */
  lemma FindIsMapSearch(slots: seq<Slot>, m: map<int, Handle>, key: int)
    requires WellFormed(slots) && Represents(slots, m)
    ensures FindValue(slots, key) == MapSearch(m, key, |slots|)
  {
    CountIsMapSize(slots, m);
    CountBound(slots);
    ProbeDiverges(slots, key);
    if key in m {
      var i :| 0 <= i < |slots| && slots[i].Used? && slots[i].key == key;
      ProbeFindsKey(slots, i);
    }
  }

  /** Every search is answered as the map answers it. */
  ghost predicate Agrees(slots: seq<Slot>, m: map<int, Handle>)
    requires slots != []
  {
    forall key :: FindValue(slots, key) == MapSearch(m, key, |slots|)
  }

  // --- The operations on slots ----------------------------------------------------

  /** `hash_set`: a full table ignores every call, updates included. */
  function SetSlots(slots: seq<Slot>, key: int, value: Handle): seq<Slot>
    requires slots != []
  {
    if Count(slots) >= |slots| then slots
    else
      match Probe(slots, key)
      case None => slots
      case Some(i) => slots[i := Used(key, value)]
  }

  /** `hash_delete`: the slot is emptied, and nothing else changes. */
  function DeleteSlots(slots: seq<Slot>, key: int): seq<Slot>
    requires slots != []
  {
    match Probe(slots, key)
    case None => slots
    case Some(i) => slots[i := Empty]
  }

  /** A probe for any key ends while a slot is free. */
  lemma RoomEndsProbe(slots: seq<Slot>, key: int)
    requires slots != [] && Count(slots) < |slots|
    ensures Probe(slots, key).Some?
  {
    CountBound(slots);
    ProbeDiverges(slots, key);
  }

  function MapSet(m: map<int, Handle>, key: int, value: Handle, cap: nat): map<int, Handle> {
    if |m| >= cap then m else m[key := value]
  }

  /** `hash_set` keeps the table well-formed and is the bounded map's update. */
  lemma SetRefines(slots: seq<Slot>, m: map<int, Handle>, key: int, value: Handle)
    requires WellFormed(slots) && Represents(slots, m)
    ensures WellFormed(SetSlots(slots, key, value))
    ensures Represents(SetSlots(slots, key, value), MapSet(m, key, value, |slots|))
  {
    CountIsMapSize(slots, m);
    if Count(slots) < |slots| {
      RoomEndsProbe(slots, key);
      ProbeMeaning(slots, key);
      var i := Probe(slots, key).value;
      var slots' := slots[i := Used(key, value)];
      forall j | 0 <= j < |slots| && slots[j].Used? && slots[j].key == key
        ensures j == i
      {
        ProbeFindsKey(slots, j);
      }
      forall k | k in m[key := value]
        ensures HasKey(slots', k)
      {
        if k == key {
          assert slots'[i].Used? && slots'[i].key == k;
        } else {
          var j :| 0 <= j < |slots| && slots[j].Used? && slots[j].key == k;
          assert slots'[j] == slots[j];
        }
      }
    }
  }

  /** Some other key's way from its home passes the slot. */
  ghost predicate Crossed(slots: seq<Slot>, i: nat)
    requires i < |slots|
  {
    exists j :: 0 <= j < |slots| && j != i && slots[j].Used?
      && Passes(Home(slots[j].key, |slots|), j, i, |slots|)
  }

  lemma EmptiedRepresents(slots: seq<Slot>, m: map<int, Handle>, i: nat)
    requires WellFormed(slots) && Represents(slots, m) && i < |slots| && slots[i].Used?
    ensures Represents(slots[i := Empty], m - {slots[i].key})
  {
    var slots' := slots[i := Empty];
    forall k | k in m - {slots[i].key}
      ensures HasKey(slots', k)
    {
      var j :| 0 <= j < |slots| && slots[j].Used? && slots[j].key == k;
      assert slots'[j] == slots[j];
    }
  }

  /**
   Emptying the slot of a key in a well-formed table leaves a well-formed table, and leaves
   lookup in agreement with the map, exactly when no other key's way passes the slot.
   */
  lemma DeleteIsSoundIff(slots: seq<Slot>, m: map<int, Handle>, i: nat)
    requires WellFormed(slots) && Represents(slots, m) && i < |slots| && slots[i].Used?
    ensures WellFormed(slots[i := Empty]) <==> !Crossed(slots, i)
    ensures Agrees(slots[i := Empty], m - {slots[i].key}) <==> !Crossed(slots, i)
  {
    var slots' := slots[i := Empty];
    var m' := m - {slots[i].key};
    EmptiedRepresents(slots, m, i);
    if Crossed(slots, i) {
      var j :| 0 <= j < |slots| && j != i && slots[j].Used?
        && Passes(Home(slots[j].key, |slots|), j, i, |slots|);
      CrossedKeyIsLost(slots, i, j);
      assert MapSearch(m', slots[j].key, |slots|).Found?;
      assert slots'[j] == slots[j] && !slots'[i].Used?;
    } else {
      assert WellFormed(slots');
      forall key
        ensures FindValue(slots', key) == MapSearch(m', key, |slots|)
      {
        FindIsMapSearch(slots', m', key);
      }
    }
  }

  /** A key whose way passes an emptied slot is not found any more, although it is in the table. */
  lemma CrossedKeyIsLost(slots: seq<Slot>, i: nat, j: nat)
    requires WellFormed(slots) && i < |slots| && j < |slots| && i != j
    requires slots[i].Used? && slots[j].Used?
    requires Passes(Home(slots[j].key, |slots|), j, i, |slots|)
    ensures FindValue(slots[i := Empty], slots[j].key) == Absent
  {
    var key := slots[j].key;
    var slots' := slots[i := Empty];
    var home := Home(key, |slots|);
    forall h | 0 <= h < |slots| && Passes(home, i, h, |slots|)
      ensures !Stops(slots', key, h)
    {
      assert Passes(home, j, h, |slots|);
      assert slots[h].Used? && h != j;
    }
    assert FirstStop(slots', key, i);
    ProbeMeaning(slots', key);
    FirstStopUnique(slots', key, i, Probe(slots', key).value);
  }

  // --- Whole runs -----------------------------------------------------------------

  datatype Op = Set(key: int, value: Handle) | Delete(key: int)

  function ApplySlots(slots: seq<Slot>, op: Op): (r: seq<Slot>)
    requires slots != []
    ensures |r| == |slots|
  {
    match op
    case Set(key, value) => SetSlots(slots, key, value)
    case Delete(key) => DeleteSlots(slots, key)
  }

  function ApplyMap(m: map<int, Handle>, op: Op, cap: nat): map<int, Handle> {
    match op
    case Set(key, value) => MapSet(m, key, value, cap)
    case Delete(key) => m - {key}
  }

  function RunSlots(slots: seq<Slot>, ops: seq<Op>): (r: seq<Slot>)
    requires slots != []
    ensures |r| == |slots|
    decreases |ops|
  {
    if ops == [] then slots else RunSlots(ApplySlots(slots, ops[0]), ops[1..])
  }

  function RunMap(m: map<int, Handle>, ops: seq<Op>, cap: nat): map<int, Handle>
    decreases |ops|
  {
    if ops == [] then m else RunMap(ApplyMap(m, ops[0], cap), ops[1..], cap)
  }

  /** The call returns: only a deletion searches without looking at the size first. */
  predicate Returns(slots: seq<Slot>, op: Op)
    requires slots != []
  {
    op.Delete? ==> FindValue(slots, op.key) != Endless
  }

  /** The call returns, and a deletion frees no slot that another key's way passes. */
  ghost predicate Safe(slots: seq<Slot>, op: Op)
    requires slots != []
  {
    && Returns(slots, op)
    && (op.Delete? && FindValue(slots, op.key).Found? ==> !Crossed(slots, Probe(slots, op.key).value))
  }

  ghost predicate SafeRun(slots: seq<Slot>, ops: seq<Op>)
    requires slots != []
    decreases |ops|
  {
    ops == [] || (Safe(slots, ops[0]) && SafeRun(ApplySlots(slots, ops[0]), ops[1..]))
  }

  /** Every call of the run returns, and before and after each of them every search agrees with the map. */
  ghost predicate AgreesThroughout(slots: seq<Slot>, m: map<int, Handle>, ops: seq<Op>)
    requires slots != []
    decreases |ops|
  {
    && Agrees(slots, m)
    && (ops == [] ||
        (&& Returns(slots, ops[0])
         && AgreesThroughout(ApplySlots(slots, ops[0]), ApplyMap(m, ops[0], |slots|), ops[1..])))
  }

  lemma ApplyRefines(slots: seq<Slot>, m: map<int, Handle>, op: Op)
    requires WellFormed(slots) && Represents(slots, m) && Safe(slots, op)
    ensures WellFormed(ApplySlots(slots, op)) && Represents(ApplySlots(slots, op), ApplyMap(m, op, |slots|))
  {
    match op
    case Set(key, value) => SetRefines(slots, m, key, value);
    case Delete(key) =>
      FindIsMapSearch(slots, m, key);
      var i := Probe(slots, key).value;
      if slots[i].Used? {
        EmptiedRepresents(slots, m, i);
        DeleteIsSoundIff(slots, m, i);
      } else {
        assert slots[i := Empty] == slots;
        assert m - {key} == m;
      }
  }

  lemma WellFormedAgrees(slots: seq<Slot>, m: map<int, Handle>)
    requires WellFormed(slots) && Represents(slots, m)
    ensures Agrees(slots, m)
  {
    forall key
      ensures FindValue(slots, key) == MapSearch(m, key, |slots|)
    {
      FindIsMapSearch(slots, m, key);
    }
  }

  /** After any run of safe calls, every search is the search of the bounded map the run describes. */
  lemma {:induction false} SafeRunRefines(slots: seq<Slot>, m: map<int, Handle>, ops: seq<Op>)
    requires WellFormed(slots) && Represents(slots, m) && SafeRun(slots, ops)
    ensures WellFormed(RunSlots(slots, ops))
    ensures Represents(RunSlots(slots, ops), RunMap(m, ops, |slots|))
    ensures Agrees(RunSlots(slots, ops), RunMap(m, ops, |slots|))
    decreases |ops|
  {
    hide Represents, WellFormed, Agrees, ApplySlots, ApplyMap, Safe;
    if ops == [] {
      WellFormedAgrees(slots, m);
    } else {
      ApplyRefines(slots, m, ops[0]);
      SafeRunRefines(ApplySlots(slots, ops[0]), ApplyMap(m, ops[0], |slots|), ops[1..]);
    }
  }

  /** A deletion after which the table still agrees with the map was safe. */
  lemma AgreementIsSafe(slots: seq<Slot>, m: map<int, Handle>, op: Op)
    requires WellFormed(slots) && Represents(slots, m) && Returns(slots, op)
    requires Agrees(ApplySlots(slots, op), ApplyMap(m, op, |slots|))
    ensures Safe(slots, op)
  {
    hide Represents, WellFormed, Agrees, Crossed;
    if op.Delete? && FindValue(slots, op.key).Found? {
      DeleteIsSoundIff(slots, m, Probe(slots, op.key).value);
    }
  }

  /** A run keeps the table in agreement with the map at every step exactly when each of its calls is safe. */
  lemma {:induction false} RunAgreesIff(slots: seq<Slot>, m: map<int, Handle>, ops: seq<Op>)
    requires slots != [] && WellFormed(slots) && Represents(slots, m)
    ensures AgreesThroughout(slots, m, ops) <==> SafeRun(slots, ops)
    decreases |ops|
  {
    hide Represents, WellFormed, Agrees, ApplySlots, ApplyMap;
    WellFormedAgrees(slots, m);
    if ops != [] {
      var op := ops[0];
      if AgreesThroughout(slots, m, ops) {
        assert AgreesThroughout(ApplySlots(slots, op), ApplyMap(m, op, |slots|), ops[1..]);
        AgreementIsSafe(slots, m, op);
      }
      if Safe(slots, op) {
        ApplyRefines(slots, m, op);
        RunAgreesIff(ApplySlots(slots, op), ApplyMap(m, op, |slots|), ops[1..]);
      }
    }
  }

  /** Without deletions every run is safe, whatever the keys. */
  lemma {:induction false} SetRunIsSafe(slots: seq<Slot>, ops: seq<Op>)
    requires slots != [] && forall i :: 0 <= i < |ops| ==> ops[i].Set?
    ensures SafeRun(slots, ops)
    decreases |ops|
  {
    if ops != [] {
      SetRunIsSafe(ApplySlots(slots, ops[0]), ops[1..]);
    }
  }

  /** No two of the keys share a home slot. */
  ghost predicate DistinctHomes(keys: set<int>, cap: nat)
    requires cap > 0
  {
    forall k, l :: k in keys && l in keys && Home(k, cap) == Home(l, cap) ==> k == l
  }

  /** Every key in the table is one of `keys` and sits in its home slot. */
  ghost predicate AtHome(slots: seq<Slot>, keys: set<int>)
    requires slots != []
  {
    forall i :: 0 <= i < |slots| && slots[i].Used? ==> slots[i].key in keys && Home(slots[i].key, |slots|) == i
  }

  lemma HomeStops(slots: seq<Slot>, keys: set<int>, key: int)
    requires slots != [] && DistinctHomes(keys, |slots|) && AtHome(slots, keys) && key in keys
    ensures Probe(slots, key) == Some(Home(key, |slots|))
  {
    var h := Home(key, |slots|);
    assert slots[h].Used? ==> Home(slots[h].key, |slots|) == h;
  }

  /** With distinct homes every run is safe, and no key is ever out of its home slot. */
  lemma {:induction false} DistinctHomesAreSafe(slots: seq<Slot>, keys: set<int>, ops: seq<Op>)
    requires slots != [] && DistinctHomes(keys, |slots|) && AtHome(slots, keys)
    requires forall i :: 0 <= i < |ops| ==> ops[i].key in keys
    ensures SafeRun(slots, ops) && AtHome(RunSlots(slots, ops), keys)
    decreases |ops|
  {
    if ops != [] {
      var op := ops[0];
      HomeStops(slots, keys, op.key);
      assert Safe(slots, op);
      assert AtHome(ApplySlots(slots, op), keys);
      DistinctHomesAreSafe(ApplySlots(slots, op), keys, ops[1..]);
    }
  }

  /** The empty table of `hash_init`. */
  function NewSlots(cap: nat): seq<Slot> {
    seq(cap, _ => Empty)
  }

  lemma {:induction false} NewIsEmpty(cap: nat)
    ensures Count(NewSlots(cap)) == 0
  {
    if cap > 0 {
      NewIsEmpty(cap - 1);
      assert NewSlots(cap)[1..] == NewSlots(cap - 1);
    }
  }

  lemma SmallKeysHaveDistinctHomes(keys: set<int>, cap: nat)
    requires cap > 0 && forall k :: k in keys ==> 0 <= k < cap
    ensures DistinctHomes(keys, cap)
  {
    assert forall k :: k in keys ==> Home(k, cap) == k;
  }

  /**
   The server's table: capacity 1024, keyed by socket descriptors below it. Every run of
   insertions, updates and deletions from the empty table refines the bounded map, and every
   search for a descriptor returns.
   */
  lemma DescriptorRunsRefine(cap: nat, ops: seq<Op>)
    requires cap > 0 && forall i :: 0 <= i < |ops| ==> 0 <= ops[i].key < cap
    ensures Agrees(RunSlots(NewSlots(cap), ops), RunMap(map[], ops, cap))
    ensures forall key :: 0 <= key < cap ==> FindValue(RunSlots(NewSlots(cap), ops), key) != Endless
    ensures AgreesThroughout(NewSlots(cap), map[], ops)
  {
    hide AgreesThroughout, SafeRun, Agrees;
    var slots := NewSlots(cap);
    var keys := set op | op in ops :: op.key;
    SmallKeysHaveDistinctHomes(keys, cap);
    DistinctHomesAreSafe(slots, keys, ops);
    SafeRunRefines(slots, map[], ops);
    RunAgreesIff(slots, map[], ops);
    forall key | 0 <= key < cap
      ensures FindValue(RunSlots(slots, ops), key) != Endless
    {
      SmallKeysHaveDistinctHomes(keys + {key}, cap);
      DistinctHomesAreSafe(slots, keys + {key}, ops);
      HomeStops(RunSlots(slots, ops), keys + {key}, key);
    }
  }

  /** Without that restriction a run can lose a live key: 1 and 6 share a home slot modulo 5. */
  lemma DeletionCanLoseAKey()
    ensures
      var ops := [Set(1, 10), Set(6, 60), Delete(1)];
      && FindValue(RunSlots(NewSlots(5), ops), 6) == Absent
      && MapSearch(RunMap(map[], ops, 5), 6, 5) == Found(60)
  {
    hide Count, ProbeFrom, SetSlots, DeleteSlots;
    var s1 := [Empty, Used(1, 10), Empty, Empty, Empty];
    var s2 := [Empty, Used(1, 10), Used(6, 60), Empty, Empty];
    var s3 := [Empty, Empty, Used(6, 60), Empty, Empty];
    var ops := [Set(1, 10), Set(6, 60), Delete(1)];
    StepsOfTheRun(s1, s2, s3);
    assert ops[1..] == [Set(6, 60), Delete(1)] && ops[1..][1..] == [Delete(1)] && ops[1..][1..][1..] == [];
    assert RunSlots(NewSlots(5), ops) == RunSlots(s1, ops[1..]) == RunSlots(s2, ops[1..][1..]) == s3;
    assert RunMap(map[], ops, 5) == RunMap(map[1 := 10], ops[1..], 5)
        == RunMap(map[1 := 10, 6 := 60], ops[1..][1..], 5) == map[1 := 10, 6 := 60] - {1};
  }

  lemma StepsOfTheRun(s1: seq<Slot>, s2: seq<Slot>, s3: seq<Slot>)
    requires s1 == [Empty, Used(1, 10), Empty, Empty, Empty]
    requires s2 == [Empty, Used(1, 10), Used(6, 60), Empty, Empty]
    requires s3 == [Empty, Empty, Used(6, 60), Empty, Empty]
    ensures SetSlots(NewSlots(5), 1, 10) == s1 && SetSlots(s1, 6, 60) == s2 && DeleteSlots(s2, 1) == s3
    ensures FindValue(s3, 6) == Absent
  {
    hide Count;
    var s0 := NewSlots(5);
    NewIsEmpty(5);
    CountUpdate(s0, 1, Used(1, 10));
    assert s0[1 := Used(1, 10)] == s1;
    assert ProbeFrom(s1, 6, 1, 5) == ProbeFrom(s1, 6, 2, 4) == Some(2);
    assert Probe(s2, 1) == Some(1) && Probe(s3, 6) == Some(1);
  }
}
