/** `HashMap` of hash.js: open addressing with linear probing and tombstone
    deletion. The slot array is a sequence of tagged slots; a JavaScript
    hole is `Empty`, an entry with `deleted: false` is `Live` and one with
    `deleted: true` is `Tombstone`. */
module OpenAddressing {
  import opened Failures
  import opened StringHash
  import opened LoadPolicy

  datatype Slot<V> = Empty | Live(key: Key, value: V) | Tombstone(key: Key, value: V)

  /** The slot visited at step `d` of a probe that starts at `start`,
      wrapping around at `capacity`. */
  function ProbeIndex(start: nat, d: nat, capacity: nat): (r: nat)
    requires start < capacity && d < capacity
    ensures r < capacity
    ensures r == (start + d) % capacity
  {
    if start + d < capacity then start + d
    else ModOnce(start + d, capacity); start + d - capacity
  }

  /** Reducing a value below twice the modulus takes one subtraction. */
  lemma ModOnce(x: nat, c: nat)
    requires 0 < c <= x < 2 * c
    ensures x % c == x - c
  {
  }

  /** The step at which a probe from `start` reaches slot `j`. */
  function Dist(start: nat, j: nat, capacity: nat): (d: nat)
    requires start < capacity && j < capacity
    ensures d < capacity && ProbeIndex(start, d, capacity) == j
    ensures forall e :: 0 <= e < capacity && ProbeIndex(start, e, capacity) == j ==> e == d
  {
    if start <= j then j - start else j + capacity - start
  }

  /** The stopping test of `_findSlot`: a hole, or a non-deleted entry
      whose key equals `key`. */
  predicate Matches<V>(slot: Slot<V>, key: Key)
    ensures slot.Tombstone? ==> !Matches(slot, key)
    ensures slot.Live? ==> (Matches(slot, key) <==> slot.key == key)
  {
    slot.Empty? || (slot.Live? && slot.key == key)
  }

  /** The probe from step `d` on: the first slot that `Matches`, or `None`
      when all `capacity` steps are used up. */
  function Probe<V>(slots: seq<Slot<V>>, key: Key, start: nat, d: nat): (r: Option<nat>)
    requires start < |slots| && d <= |slots|
    ensures r.Some? ==> r.value < |slots| && Matches(slots[r.value], key)
    ensures r.Some? ==> d <= Dist(start, r.value, |slots|)
    ensures r.Some? ==> forall e :: d <= e < Dist(start, r.value, |slots|) ==>
                          !Matches(slots[ProbeIndex(start, e, |slots|)], key)
    ensures r.None? <==> forall e :: d <= e < |slots| ==> !Matches(slots[ProbeIndex(start, e, |slots|)], key)
    decreases |slots| - d
  {
    if d == |slots| then None
    else if Matches(slots[ProbeIndex(start, d, |slots|)], key) then Some(ProbeIndex(start, d, |slots|))
    else Probe(slots, key, start, d + 1)
  }

  /** What `_findSlot(key)` returns on a slot array. */
  function FindIn<V>(slots: seq<Slot<V>>, key: Key): (r: Option<nat>)
    requires |slots| > 0
    ensures r.Some? ==> r.value < |slots| && Matches(slots[r.value], key)
    ensures r.None? <==> forall j :: 0 <= j < |slots| ==> !Matches(slots[j], key)
  {
    ProbeCoversAll(slots, key, HomeSlot(key, |slots|));
    Probe(slots, key, HomeSlot(key, |slots|), 0)
  }

  /** A full probe visits every slot, so it finds nothing exactly when no
      slot matches. */
  lemma ProbeCoversAll<V>(slots: seq<Slot<V>>, key: Key, start: nat)
    requires start < |slots|
    ensures Probe(slots, key, start, 0).None? <==> forall j :: 0 <= j < |slots| ==> !Matches(slots[j], key)
  {
    if Probe(slots, key, start, 0).None? {
      forall j | 0 <= j < |slots|
        ensures !Matches(slots[j], key)
      {
        var d := Dist(start, j, |slots|);
      }
    }
  }

  /** A fresh slot array: `[]` read at indices below `n`. */
  function EmptySlots<V>(n: nat): (s: seq<Slot<V>>)
    ensures |s| == n && forall i :: 0 <= i < n ==> s[i].Empty?
  {
    seq(n, _ => Empty)
  }

  /** The number of slots that hold an entry, live or deleted. */
  function Occupied<V>(slots: seq<Slot<V>>): (n: nat)
    ensures n <= |slots|
  {
    if slots == [] then 0 else (if slots[0].Empty? then 0 else 1) + Occupied(slots[1..])
  }

  /** No two live slots hold the same key. */
  ghost predicate LiveKeysDistinct<V>(slots: seq<Slot<V>>) {
    forall i, j ::
      (0 <= i < |slots| && 0 <= j < |slots| && slots[i].Live? && slots[j].Live? && slots[i].key == slots[j].key)
      ==> i == j
  }

  /** Every slot a probe for the entry at `j` passes before reaching `j`
      holds an entry, so the probe cannot stop early at a hole. */
  ghost predicate ChainIntact<V>(slots: seq<Slot<V>>, j: nat)
    requires j < |slots| && slots[j].Live?
  {
    var start := HomeSlot(slots[j].key, |slots|);
    forall e :: 0 <= e < Dist(start, j, |slots|) ==> !slots[ProbeIndex(start, e, |slots|)].Empty?
  }

  /** Every live slot holds a pair of `contents`. */
  ghost predicate LiveInContents<V>(slots: seq<Slot<V>>, contents: map<Key, V>) {
    forall j :: 0 <= j < |slots| && slots[j].Live? ==>
      slots[j].key in contents && contents[slots[j].key] == slots[j].value
  }

  /** Every pair of `contents` sits in some live slot. */
  ghost predicate ContentsInSlots<V>(slots: seq<Slot<V>>, contents: map<Key, V>) {
    forall k :: k in contents ==> exists j :: 0 <= j < |slots| && slots[j] == Live(k, contents[k])
  }

  /** The slot array holds exactly the live pairs of `contents`, each
      reachable by probing from its key's home slot. */
  ghost predicate Stores<V>(slots: seq<Slot<V>>, contents: map<Key, V>) {
    && |slots| > 0
    && LiveKeysDistinct(slots)
    && (forall j :: 0 <= j < |slots| && slots[j].Live? ==> ChainIntact(slots, j))
    && LiveInContents(slots, contents)
    && ContentsInSlots(slots, contents)
  }

  // ---------------------------------------------------------------------
  // Lemmas about the slot array

  /** A table with fewer occupied slots than slots has a hole. */
  lemma {:induction false} HoleExists<V>(slots: seq<Slot<V>>)
    requires Occupied(slots) < |slots|
    ensures exists j :: 0 <= j < |slots| && slots[j].Empty?
  {
    if !slots[0].Empty? {
      HoleExists(slots[1..]);
      var j :| 0 <= j < |slots[1..]| && slots[1..][j].Empty?;
      assert slots[j + 1].Empty?;
    }
  }

  /** Overwriting one slot changes the occupied count only when the slot
      goes from a hole to an entry or back. */
  lemma {:induction false} OccupiedUpdate<V>(slots: seq<Slot<V>>, j: nat, s: Slot<V>)
    requires j < |slots|
    ensures Occupied(slots[j := s]) ==
            Occupied(slots) - (if slots[j].Empty? then 0 else 1) + (if s.Empty? then 0 else 1)
  {
    if j == 0 {
      assert slots[j := s][1..] == slots[1..];
    } else {
      assert slots[j := s][1..] == slots[1..][j - 1 := s];
      OccupiedUpdate(slots[1..], j - 1, s);
    }
  }

  lemma {:induction false} OccupiedAllEmpty<V>(n: nat)
    ensures Occupied(EmptySlots<V>(n)) == 0
  {
    if n > 0 {
      assert EmptySlots<V>(n)[1..] == EmptySlots<V>(n - 1);
      OccupiedAllEmpty<V>(n - 1);
    }
  }

  /** A fresh slot array of any positive size stores the empty map. */
  lemma EmptyTableStores<V>(n: nat)
    requires n > 0
    ensures Stores(EmptySlots<V>(n), map[])
  {
  }

  /** A probe that has not yet reached a live entry for `key` and has only
      passed entries on the way finds exactly that entry. */
  lemma {:induction false} ProbeReaches<V>(slots: seq<Slot<V>>, key: Key, start: nat, j: nat, d: nat)
    requires start < |slots| && j < |slots| && slots[j].Live? && slots[j].key == key
    requires LiveKeysDistinct(slots)
    requires d <= Dist(start, j, |slots|)
    requires forall e :: 0 <= e < Dist(start, j, |slots|) ==> !slots[ProbeIndex(start, e, |slots|)].Empty?
    ensures Probe(slots, key, start, d) == Some(j)
    decreases Dist(start, j, |slots|) - d
  {
    if d < Dist(start, j, |slots|) {
      var i := ProbeIndex(start, d, |slots|);
      assert i != j;
      assert !Matches(slots[i], key);
      ProbeReaches(slots, key, start, j, d + 1);
    }
  }

  /** `_findSlot` on a stored key returns the slot holding its entry. */
  lemma LookupLive<V>(slots: seq<Slot<V>>, contents: map<Key, V>, key: Key)
    requires Stores(slots, contents) && key in contents
    ensures FindIn(slots, key).Some?
    ensures slots[FindIn(slots, key).value] == Live(key, contents[key])
  {
    var j :| 0 <= j < |slots| && slots[j] == Live(key, contents[key]);
    assert ChainIntact(slots, j);
    ProbeReaches(slots, key, HomeSlot(key, |slots|), j, 0);
  }

  /** `_findSlot` on a key that is not stored returns a hole, provided the
      table has one; so it never falls off the end of its loop. */
  lemma LookupAbsent<V>(slots: seq<Slot<V>>, contents: map<Key, V>, key: Key)
    requires Stores(slots, contents) && key !in contents
    requires Occupied(slots) < |slots|
    ensures FindIn(slots, key).Some?
    ensures slots[FindIn(slots, key).value].Empty?
  {
    HoleExists(slots);
    var j :| 0 <= j < |slots| && slots[j].Empty?;
    var start := HomeSlot(key, |slots|);
    assert slots[ProbeIndex(start, Dist(start, j, |slots|), |slots|)].Empty?;
  }

  /** `_findSlot` never returns a tombstone: the slot it finds is a hole or
      the live entry for the key. */
  lemma FindNeverTombstone<V>(slots: seq<Slot<V>>, key: Key)
    requires |slots| > 0 && FindIn(slots, key).Some?
    ensures !slots[FindIn(slots, key).value].Tombstone?
  {
  }

  /** Writing `Live(key, value)` into the slot `_findSlot` returned keeps the
      table consistent with `contents[key := value]`. */
  lemma StoresAfterPlace<V>(slots: seq<Slot<V>>, contents: map<Key, V>, key: Key, value: V)
    requires Stores(slots, contents) && FindIn(slots, key).Some?
    ensures Stores(slots[FindIn(slots, key).value := Live(key, value)], contents[key := value])
  {
    var p := FindIn(slots, key).value;
    var start := HomeSlot(key, |slots|);
    var slots' := slots[p := Live(key, value)];
    var contents' := contents[key := value];
    var n := |slots|;
    if slots[p].Empty? && key in contents {
      LookupLive(slots, contents, key);
      assert false;
    }
    assert slots[p].Empty? ==> key !in contents;
    // probe chains stay intact
    forall j | 0 <= j < n && slots'[j].Live? ensures ChainIntact(slots', j) {
      if j == p {
        forall e | 0 <= e < Dist(start, p, n) ensures !slots'[ProbeIndex(start, e, n)].Empty? {
          assert !Matches(slots[ProbeIndex(start, e, n)], key);
        }
      } else {
        assert ChainIntact(slots, j);
      }
    }
    // every stored pair still has its slot
    forall k | k in contents' ensures exists j :: 0 <= j < n && slots'[j] == Live(k, contents'[k]) {
      if k == key {
        assert slots'[p] == Live(k, contents'[k]);
      } else {
        var j :| 0 <= j < n && slots[j] == Live(k, contents[k]);
        assert slots'[j] == Live(k, contents'[k]);
      }
    }
  }

  /** Marking the live entry for `key` deleted keeps the table consistent
      with `contents` minus `key`. */
  lemma StoresAfterRemove<V>(slots: seq<Slot<V>>, contents: map<Key, V>, key: Key)
    requires Stores(slots, contents) && key in contents
    ensures FindIn(slots, key).Some?
    ensures Stores(slots[FindIn(slots, key).value := Tombstone(key, contents[key])], contents - {key})
  {
    LookupLive(slots, contents, key);
    var p := FindIn(slots, key).value;
    var slots' := slots[p := Tombstone(key, contents[key])];
    var contents' := contents - {key};
    var n := |slots|;
    forall j | 0 <= j < n && slots'[j].Live? ensures ChainIntact(slots', j) {
      assert ChainIntact(slots, j);
    }
    forall k | k in contents' ensures exists j :: 0 <= j < n && slots'[j] == Live(k, contents'[k]) {
      var j :| 0 <= j < n && slots[j] == Live(k, contents[k]);
      assert slots'[j] == Live(k, contents'[k]);
    }
  }

  /** A subset of a finite set is no larger. */
  lemma {:induction false} SubsetCardinality<T>(a: set<T>, b: set<T>)
    requires a <= b
    ensures |a| <= |b|
    decreases |a|
  {
    if a != {} {
      var x :| x in a;
      SubsetCardinality(a - {x}, b - {x});
    }
  }

  /** After re-inserting the live entries of `oldSlots[..i]` into a fresh
      table, that table holds exactly their pairs. */
  ghost predicate RebuiltPrefix<V>(oldSlots: seq<Slot<V>>, oldContents: map<Key, V>, contents: map<Key, V>, i: nat) {
    && i <= |oldSlots|
    && contents.Keys <= oldContents.Keys
    && (forall k :: k in contents ==> contents[k] == oldContents[k])
    && (forall j :: 0 <= j < i && oldSlots[j].Live? ==> oldSlots[j].key in contents)
    && (forall k :: k in contents ==> exists j :: 0 <= j < i && oldSlots[j].Live? && oldSlots[j].key == k)
  }

  /** Re-inserting the next live entry adds a fresh key with its old value,
      and the table has room for it. */
  lemma RebuildStep<V>(oldSlots: seq<Slot<V>>, oldContents: map<Key, V>, contents: map<Key, V>, i: nat)
    requires LiveKeysDistinct(oldSlots) && LiveInContents(oldSlots, oldContents)
    requires RebuiltPrefix(oldSlots, oldContents, contents, i) && i < |oldSlots|
    ensures oldSlots[i].Live? ==>
              && oldSlots[i].key !in contents
              && oldSlots[i].key in oldContents && oldContents[oldSlots[i].key] == oldSlots[i].value
              && |contents| + 1 <= |oldContents|
              && RebuiltPrefix(oldSlots, oldContents, contents[oldSlots[i].key := oldSlots[i].value], i + 1)
    ensures !oldSlots[i].Live? ==> RebuiltPrefix(oldSlots, oldContents, contents, i + 1)
  {
    if oldSlots[i].Live? {
      var key := oldSlots[i].key;
      SubsetCardinality(contents.Keys + {key}, oldContents.Keys);
    }
  }

  /** Once every slot is re-inserted the rebuilt table holds the old pairs. */
  lemma RebuildDone<V>(oldSlots: seq<Slot<V>>, oldContents: map<Key, V>, contents: map<Key, V>)
    requires ContentsInSlots(oldSlots, oldContents)
    requires RebuiltPrefix(oldSlots, oldContents, contents, |oldSlots|)
    ensures contents == oldContents
  {
    forall k | k in oldContents ensures k in contents {
      var j :| 0 <= j < |oldSlots| && oldSlots[j] == Live(k, oldContents[k]);
    }
    assert contents.Keys == oldContents.Keys;
  }

  // ---------------------------------------------------------------------
  // The table

  class HashMap<V> {
    var length: int
    var deleted: int
    var capacity: int
    var slots: seq<Slot<V>>
    /** The live key/value pairs. */
    ghost var Contents: map<Key, V>

    /** `length` counts the live entries, `length + deleted` the occupied
        slots, the load stays at most 9/10 and the slots store `Contents`. */
    ghost predicate Valid()
      reads this
    {
      && 1 <= capacity && |slots| == capacity
      && 0 <= deleted && length == |Contents|
      && length + deleted == Occupied(slots)
      && MaxLoadDenominator * (length + deleted) <= MaxLoadNumerator * capacity
      && Stores(slots, Contents)
    }

    constructor (initialCapacity: int := 8)
      requires initialCapacity >= 1
      ensures Valid() && Contents == map[]
      ensures capacity == initialCapacity && length == 0 && deleted == 0
      ensures slots == EmptySlots(initialCapacity)
    {
      length := 0;
      slots := EmptySlots(initialCapacity);
      capacity := initialCapacity;
      deleted := 0;
      Contents := map[];
      OccupiedAllEmpty<V>(initialCapacity);
      EmptyTableStores<V>(initialCapacity);
    }

    /** `_findSlot`: the linear probe, or `None` where the loop of hash.js
        falls off its end without returning. */
    method FindSlot(key: Key) returns (r: Option<nat>)
      requires 1 <= capacity && |slots| == capacity
      ensures r == FindIn(slots, key)
    {
      var hash := HashString(key);
      var start := hash % capacity;
      for i := start to start + capacity
        invariant FindIn(slots, key) == Probe(slots, key, start, i - start)
      {
        var index := i % capacity;
        assert index == ProbeIndex(start, i - start, capacity);
        var slot := slots[index];
        if slot.Empty? || (slot.Live? && slot.key == key) {
          return Some(index);
        }
      }
      return None;
    }

    /** A read only finds a key that is stored. */
    method Get(key: Key) returns (r: Result<V>)
      requires Valid()
      ensures r == if key in Contents then Ok(Contents[key]) else Err(KeyError)
    {
      var index := FindSlot(key);
      if key in Contents {
        LookupLive(slots, Contents, key);
      } else {
        LookupAbsent(slots, Contents, key);
      }
      if index.None? || slots[index.value].Empty? {
        return Err(KeyError);
      }
      return Ok(slots[index.value].value);
    }

    /** Store `value` under `key`, first tripling the capacity when the
        entry would push the load above 9/10. */
    method Set(key: Key, value: V)
      requires Valid()
      modifies this
      ensures Valid()
      ensures Contents == old(Contents)[key := value]
      ensures length == old(length) + (if key in old(Contents) then 0 else 1)
      ensures NeedsResize(old(length), old(deleted), old(capacity)) ==>
                capacity == SizeRatio * old(capacity) && deleted == 0
      ensures !NeedsResize(old(length), old(deleted), old(capacity)) ==>
                && capacity == old(capacity) && deleted == old(deleted)
                && FindIn(old(slots), key).Some?
                && slots == old(slots)[FindIn(old(slots), key).value := Live(key, value)]
      decreases if NeedsResize(length, deleted, capacity) then 2 else 0
    {
      if NeedsResize(length, deleted, capacity) {
        Resize(capacity * SizeRatio);
      }
      var index := FindSlot(key);
      if key in Contents {
        LookupLive(slots, Contents, key);
      } else {
        LookupAbsent(slots, Contents, key);
      }
      var p := index.value;
      StoresAfterPlace(slots, Contents, key, value);
      OccupiedUpdate(slots, p, Live(key, value));
      if !slots[p].Empty? {
        length := length - 1;
      }
      slots := slots[p := Live(key, value)];
      length := length + 1;
      Contents := Contents[key := value];
    }

    /** Mark the live entry for `key` deleted. */
    method Remove(key: Key) returns (status: Status)
      requires Valid()
      modifies this
      ensures Valid()
      ensures key in old(Contents) ==>
                && status == Done
                && Contents == old(Contents) - {key}
                && length == old(length) - 1 && deleted == old(deleted) + 1
                && capacity == old(capacity)
                && FindIn(old(slots), key).Some?
                && slots == old(slots)[FindIn(old(slots), key).value := Tombstone(key, old(Contents)[key])]
      ensures key !in old(Contents) ==> status == Thrown(KeyError) && unchanged(this)
    {
      var index := FindSlot(key);
      if key in Contents {
        StoresAfterRemove(slots, Contents, key);
      } else {
        LookupAbsent(slots, Contents, key);
      }
      if index.None? || slots[index.value].Empty? {
        return Thrown(KeyError);
      }
      var p := index.value;
      OccupiedUpdate(slots, p, Tombstone(key, Contents[key]));
      slots := slots[p := Tombstone(slots[p].key, slots[p].value)];
      length := length - 1;
      deleted := deleted + 1;
      Contents := Contents - {key};
      return Done;
    }

    /** `_resize`: rebuild at capacity `size` by re-inserting every live
        entry in slot order. None of those insertions resizes again. */
    method Resize(size: int)
      requires Valid() && size >= capacity
      modifies this
      ensures Valid()
      ensures capacity == size && deleted == 0
      ensures Contents == old(Contents) && length == |old(Contents)|
      decreases 1
    {
      var oldSlots := slots;
      ghost var oldContents := Contents;
      capacity := size;
      length := 0;
      deleted := 0;
      slots := EmptySlots(size);
      Contents := map[];
      OccupiedAllEmpty<V>(size);
      EmptyTableStores<V>(size);
      for i := 0 to |oldSlots|
        invariant Valid() && capacity == size && deleted == 0
        invariant RebuiltPrefix(oldSlots, oldContents, Contents, i)
      {
        var slot := oldSlots[i];
        RebuildStep(oldSlots, oldContents, Contents, i);
        if slot.Live? {
          assert !NeedsResize(length, deleted, capacity);
          Set(slot.key, slot.value);
        }
      }
      RebuildDone(oldSlots, oldContents, Contents);
    }
  }
}
