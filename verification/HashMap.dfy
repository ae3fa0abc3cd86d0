/**
 The table of lib/hashtable.c as objects: an array of node pointers, probed and updated in
 place. Each procedure is tied to its function on slots in `HashTable`.
 */
module HashMaps {
  import opened Bytes
  import opened HashTable

  class HashNode {
    const key: int
    var value: Handle

    constructor (key: int, value: Handle)
      ensures this.key == key && this.value == value
    {
      this.key := key;
      this.value := value;
    }
  }

  class HashMap {
    const hashTable: array<HashNode?>
    const cap: int
    var size: int
    ghost var slots: seq<Slot>

    ghost function Nodes(): set<HashNode>
      reads hashTable
    {
      set i | 0 <= i < hashTable.Length && hashTable[i] != null :: hashTable[i]
    }

    /** The slots mirror the array, no node occurs twice, and the size counts the nodes. */
    ghost predicate Valid()
      reads this, hashTable, Nodes()
    {
      && 0 < cap == hashTable.Length == |slots|
      && size == Count(slots)
      && (forall i :: 0 <= i < cap ==> (hashTable[i] == null <==> slots[i].Empty?))
      && (forall i :: 0 <= i < cap && hashTable[i] != null ==>
            slots[i] == Used(hashTable[i].key, hashTable[i].value))
      && (forall i, j :: 0 <= i < j < cap && hashTable[i] != null ==> hashTable[i] != hashTable[j])
    }

    /** `hash_init`. */
    constructor (cap: int)
      requires cap > 0
      ensures Valid() && this.cap == cap && slots == NewSlots(cap) && fresh(hashTable)
    {
      this.hashTable := new HashNode?[cap](_ => null);
      this.cap := cap;
      this.size := 0;
      this.slots := NewSlots(cap);
      new;
      NewIsEmpty(cap);
    }

    /** `find`, for calls that return: on a full table only for a key it holds. */
    method Find(key: int) returns (node: HashNode?)
      requires Valid() && !FullWithout(slots, key)
      ensures node == null <==> FindValue(slots, key) == Absent
      ensures node != null ==> node in Nodes() && node.key == key && FindValue(slots, key) == Found(node.value)
    {
      var h: nat := Home(key, cap);
      ghost var left: nat := |slots|;
      ProbeDiverges(slots, key);
      node := hashTable[h];
      while node != null
        invariant 0 <= h < cap && node == hashTable[h]
        invariant ProbeFrom(slots, key, h, left) == Probe(slots, key)
        decreases left
      {
        if node.key != key {
          h := if h < cap - 1 then h + 1 else 0;
          left := left - 1;
        } else {
          return node;
        }
        node := hashTable[h];
      }
      return null;
    }

    /** `hash_get`: a stored NULL and an absent key look alike. */
    method HashGet(key: int) returns (value: Handle)
      requires Valid() && !FullWithout(slots, key)
      ensures value == match FindValue(slots, key) case Found(v) => v case _ => 0
    {
      var node := Find(key);
      value := if node == null then 0 else node.value;
    }

    /** `hash_set`. */
    method HashSet(key: int, value: Handle)
      requires Valid()
      modifies this, hashTable, Nodes()
      ensures Valid() && fresh(Nodes() - old(Nodes()))
      ensures slots == SetSlots(old(slots), key, value)
    {
      if size >= cap {
        return;
      }
      var h: nat := Home(key, cap);
      ghost var left: nat := |slots|;
      RoomEndsProbe(slots, key);
      while hashTable[h] != null
        invariant 0 <= h < cap
        invariant ProbeFrom(slots, key, h, left) == Probe(slots, key)
        decreases left
      {
        if hashTable[h].key == key {
          assert Probe(slots, key) == Some(h);
          CountUpdate(slots, h, Used(key, value));
          hashTable[h].value := value;
          slots := slots[h := Used(key, value)];
          return;
        }
        h := if h < cap - 1 then h + 1 else 0;
        left := left - 1;
      }
      assert Probe(slots, key) == Some(h);
      CountUpdate(slots, h, Used(key, value));
      var node := new HashNode(key, value);
      hashTable[h] := node;
      slots := slots[h := Used(key, value)];
      size := size + 1;
    }

    /** `hash_delete`, for calls that return. */
    method HashDelete(key: int) returns (value: Handle)
      requires Valid() && !FullWithout(slots, key)
      modifies this, hashTable
      ensures Valid() && Nodes() <= old(Nodes())
      ensures slots == DeleteSlots(old(slots), key)
      ensures value == match FindValue(old(slots), key) case Found(v) => v case _ => 0
    {
      var h: nat := Home(key, cap);
      ghost var left: nat := |slots|;
      ProbeDiverges(slots, key);
      var node := hashTable[h];
      while node != null
        invariant 0 <= h < cap && node == hashTable[h]
        invariant ProbeFrom(slots, key, h, left) == Probe(slots, key)
        decreases left
      {
        if node.key != key {
          h := if h < cap - 1 then h + 1 else 0;
          left := left - 1;
        } else {
          assert Probe(slots, key) == Some(h);
          CountUpdate(slots, h, Empty);
          value := node.value;
          hashTable[h] := null;
          slots := slots[h := Empty];
          size := size - 1;
          return;
        }
        node := hashTable[h];
      }
      assert Probe(slots, key) == Some(h);
      assert slots[h := Empty] == slots;
      return 0;
    }
  }
}
