/** `ChainHash` of hash.js: separate chaining, one linked list per
    non-empty bucket. `length` counts non-empty buckets, not entries, and
    `_resize` and `remove` throw a TypeError as written; the model keeps
    all three behaviours. */
module Chaining {
  import opened Failures
  import opened StringHash
  import opened LoadPolicy
  import opened LinkedLists

  /** A bucket entry `{ key, value }`. The `deleted: false` flag hash.js
      attaches is never read or changed by the chained table. */
  datatype Entry<V> = Entry(key: Key, value: V)

  // ---------------------------------------------------------------------
  // Buckets as sequences of entries

  /** The value of the first entry whose key is `key`; `None` stands for
      the `null` that `get` returns when the bucket lacks the key. */
  function FirstMatch<V>(es: seq<Entry<V>>, key: Key): (r: Option<V>)
    ensures r.Some? ==> exists i :: 0 <= i < |es| && es[i] == Entry(key, r.value)
    ensures r.None? <==> forall i :: 0 <= i < |es| ==> es[i].key != key
  {
    if es == [] then None
    else if es[0].key == key then Some(es[0].value)
    else FirstMatch(es[1..], key)
  }

  /** No key occurs twice in a bucket. */
  ghost predicate UniqueKeys<V>(es: seq<Entry<V>>) {
    forall i, j :: 0 <= i < j < |es| ==> es[i].key != es[j].key
  }

  /** The position of the first entry with `key`, or `|es|` if none. */
  function FirstIndex<V>(es: seq<Entry<V>>, key: Key): (i: nat)
    ensures i <= |es|
    ensures i < |es| ==> es[i].key == key
    ensures forall j :: 0 <= j < i ==> es[j].key != key
  {
    if es == [] then 0
    else if es[0].key == key then 0
    else 1 + FirstIndex(es[1..], key)
  }

  /** The bucket after `set` on a non-empty bucket: the first entry with
      `key` is replaced where it stands, or, if there is none, a new entry
      is appended. */
  function Put<V>(es: seq<Entry<V>>, key: Key, value: V): (r: seq<Entry<V>>)
    ensures FirstIndex(es, key) == |es| ==> r == es + [Entry(key, value)]
    ensures FirstIndex(es, key) < |es| ==> r == es[FirstIndex(es, key) := Entry(key, value)]
  {
    if es == [] then [Entry(key, value)]
    else if es[0].key == key then [Entry(key, value)] + es[1..]
    else [es[0]] + Put(es[1..], key, value)
  }

  /** A bucket replaced by `Put` answers `value` for `key`. */
  lemma {:induction false} PutThenFind<V>(es: seq<Entry<V>>, key: Key, value: V)
    ensures FirstMatch(Put(es, key, value), key) == Some(value)
  {
    if es != [] && es[0].key != key {
      PutThenFind(es[1..], key, value);
      assert Put(es, key, value)[1..] == Put(es[1..], key, value);
    }
  }

  /** `Put` leaves every other key's answer as it was. */
  lemma {:induction false} PutKeepsOthers<V>(es: seq<Entry<V>>, key: Key, value: V, other: Key)
    requires other != key
    ensures FirstMatch(Put(es, key, value), other) == FirstMatch(es, other)
  {
    if es == [] {
    } else if es[0].key == key {
      assert Put(es, key, value)[1..] == es[1..];
    } else {
      PutKeepsOthers(es[1..], key, value, other);
      assert Put(es, key, value)[1..] == Put(es[1..], key, value);
    }
  }

  /** `Put` keeps the keys of a bucket distinct. */
  lemma PutKeepsUnique<V>(es: seq<Entry<V>>, key: Key, value: V)
    requires UniqueKeys(es)
    ensures UniqueKeys(Put(es, key, value))
  {
    var i := FirstIndex(es, key);
    var r := Put(es, key, value);
    if i == |es| {
      assert forall j :: 0 <= j < |es| ==> r[j] == es[j];
    }
  }

  /** `FirstMatch` answers the value at `FirstIndex`. */
  lemma {:induction false} FirstMatchAt<V>(es: seq<Entry<V>>, key: Key)
    ensures FirstMatch(es, key) ==
            if FirstIndex(es, key) < |es| then Some(es[FirstIndex(es, key)].value) else None
  {
    if es != [] && es[0].key != key {
      FirstMatchAt(es[1..], key);
    }
  }

  /** The number of non-empty buckets. */
  function NonEmptyCount<V>(bs: seq<seq<Entry<V>>>): (n: nat)
    ensures n <= |bs|
  {
    if bs == [] then 0 else (if bs[0] == [] then 0 else 1) + NonEmptyCount(bs[1..])
  }

  lemma {:induction false} NonEmptyCountZero<V>(bs: seq<seq<Entry<V>>>)
    ensures NonEmptyCount(bs) == 0 <==> forall i :: 0 <= i < |bs| ==> bs[i] == []
  {
    if bs != [] {
      NonEmptyCountZero(bs[1..]);
      assert forall i :: 1 <= i < |bs| ==> bs[i] == bs[1..][i - 1];
    }
  }

  lemma {:induction false} NonEmptyCountUpdate<V>(bs: seq<seq<Entry<V>>>, j: nat, b: seq<Entry<V>>)
    requires j < |bs|
    ensures NonEmptyCount(bs[j := b]) ==
            NonEmptyCount(bs) - (if bs[j] == [] then 0 else 1) + (if b == [] then 0 else 1)
  {
    if j == 0 {
      assert bs[j := b][1..] == bs[1..];
    } else {
      assert bs[j := b][1..] == bs[1..][j - 1 := b];
      NonEmptyCountUpdate(bs[1..], j - 1, b);
    }
  }

  /** Every bucket sits at its keys' home slot without repeating a key,
      and `length` is the number of non-empty buckets. */
  ghost predicate WellFormed<V>(bs: seq<seq<Entry<V>>>, capacity: int, length: int) {
    && 1 <= capacity && |bs| == capacity
    && length == NonEmptyCount(bs)
    && (forall i, k :: 0 <= i < capacity && 0 <= k < |bs[i]| ==> HomeSlot(bs[i][k].key, capacity) == i)
    && (forall i :: 0 <= i < capacity ==> UniqueKeys(bs[i]))
  }

  /** Storing into the home bucket of `key` keeps the buckets well formed;
      `length` grows by one exactly when the bucket was empty. */
  lemma WellFormedAfterPut<V>(bs: seq<seq<Entry<V>>>, capacity: int, length: int, key: Key, value: V)
    requires WellFormed(bs, capacity, length)
    ensures var b := HomeSlot(key, capacity);
            WellFormed(bs[b := Put(bs[b], key, value)], capacity,
                       length + (if bs[b] == [] then 1 else 0))
  {
    var b := HomeSlot(key, capacity);
    var put := Put(bs[b], key, value);
    var bs': seq<seq<Entry<V>>> := bs[b := put];
    NonEmptyCountUpdate(bs, b, put);
    PutKeepsUnique(bs[b], key, value);
    forall i, k | 0 <= i < capacity && 0 <= k < |bs'[i]|
      ensures HomeSlot(bs'[i][k].key, capacity) == i
    {
      if i == b && !(k < |bs[b]| && put[k] == bs[b][k]) {
        assert put[k].key == key;
      }
    }
  }

  lemma EmptyWellFormed<V>(n: nat)
    requires n >= 1
    ensures WellFormed(EmptyBuckets<V>(n), n, 0)
  {
    NonEmptyCountZero(EmptyBuckets<V>(n));
  }

  function EmptyBuckets<V>(n: nat): (bs: seq<seq<Entry<V>>>)
    ensures |bs| == n && forall i :: 0 <= i < n ==> bs[i] == []
  {
    seq(n, _ => [])
  }

  function NoLists<V>(n: nat): (s: seq<LinkedList?<Entry<V>>>)
    ensures |s| == n && forall i :: 0 <= i < n ==> s[i] == null
  {
    seq(n, _ => null)
  }

  // ---------------------------------------------------------------------
  // The table

  class ChainHash<V> {
    var length: int
    var deleted: int
    var capacity: int
    var slots: seq<LinkedList?<Entry<V>>>
    /** The entries of each bucket, in list order; `[]` for no list. */
    ghost var Buckets: seq<seq<Entry<V>>>
    ghost var Repr: set<object>

    /** The lists stand for `Buckets`, have disjoint footprints and do not
        contain the table. */
    ghost predicate ListsValid()
      reads this, Repr
    {
      && |slots| == |Buckets|
      && (forall i :: 0 <= i < |slots| && slots[i] != null ==>
            && slots[i] in Repr && slots[i].Repr <= Repr && this !in slots[i].Repr
            && slots[i].Valid() && slots[i].Contents == Buckets[i] && Buckets[i] != [])
      && (forall i :: 0 <= i < |slots| && slots[i] == null ==> Buckets[i] == [])
      && (forall i, j :: 0 <= i < j < |slots| && slots[i] != null && slots[j] != null ==>
            slots[i].Repr !! slots[j].Repr)
    }

    ghost predicate Valid()
      reads this, Repr
    {
      && this in Repr
      && 1 <= capacity && |slots| == capacity
      && deleted == 0
      && WellFormed(Buckets, capacity, length)
      && ListsValid()
    }

    constructor (initialCapacity: int := 8)
      requires initialCapacity >= 1
      ensures Valid() && fresh(Repr)
      ensures capacity == initialCapacity && length == 0 && deleted == 0
      ensures Buckets == EmptyBuckets(initialCapacity)
    {
      length := 0;
      slots := NoLists<V>(initialCapacity);
      capacity := initialCapacity;
      deleted := 0;
      Buckets := EmptyBuckets(initialCapacity);
      Repr := {this};
      EmptyWellFormed<V>(initialCapacity);
    }

    /** `_findSlot`: the bucket index of a key. */
    method FindSlot(key: Key) returns (index: nat)
      requires 1 <= capacity
      ensures index == HomeSlot(key, capacity) && index < capacity
    {
      var hash := HashString(key);
      index := hash % capacity;
    }

    /** `get`: throws on an empty bucket, else answers the first entry of
        the bucket with the key, or `null`. */
    method Get(key: Key) returns (r: Result<Option<V>>)
      requires Valid()
      ensures var b := Buckets[HomeSlot(key, capacity)];
              r == if b == [] then Err(KeyError) else Ok(FirstMatch(b, key))
    {
      var index := FindSlot(key);
      var list := slots[index];
      if list == null {
        return Err(KeyError);
      }
      assert list.Valid() && list.Contents == Buckets[index];
      var tempNode := list.head;
      ghost var i := 0;
      while tempNode != null
        invariant i <= |list.Nodes|
        invariant tempNode == if i < |list.Nodes| then list.Nodes[i] else null
        invariant FirstMatch(list.Contents, key) == FirstMatch(list.Contents[i..], key)
        decreases |list.Nodes| - i
      {
        assert list.Contents[i..][1..] == list.Contents[i + 1..];
        if tempNode.value.key == key {
          return Ok(Some(tempNode.value.value));
        }
        tempNode := tempNode.next;
        i := i + 1;
      }
      return Ok(None);
    }

    /** Replacing bucket `index` by list `l`, where only that bucket's old
        objects changed and everything else `l` uses is fresh, keeps the
        lists valid. */
    twostate lemma ListsValidAfterBucketChange(index: nat, new l: LinkedList<Entry<V>>)
      requires old(ListsValid()) && old(this in Repr) && index < old(|slots|)
      requires slots == old(slots)[index := l] && Buckets == old(Buckets)[index := l.Contents]
      requires Repr == old(Repr) + l.Repr
      requires l.Valid() && l.Contents != [] && this !in l.Repr
      requires old(slots[index]) == null ==> fresh(l.Repr)
      requires old(slots[index]) != null ==> l == old(slots[index]) && fresh(l.Repr - old(l.Repr))
      requires forall o :: o in old(Repr) && o != this && (old(slots[index]) == null || o !in old(slots[index].Repr))
                 ==> unchanged(o)
      ensures ListsValid()
    {
      forall j | 0 <= j < |slots| && j != index && slots[j] != null
        ensures slots[j].Valid() && slots[j].Contents == Buckets[j] && slots[j].Repr !! l.Repr
      {
        assert old(slots[j].Valid());
        assert forall o :: o in old(slots[j].Repr) ==> unchanged(o);
      }
      forall a, b | 0 <= a < b < |slots| && slots[a] != null && slots[b] != null
        ensures slots[a].Repr !! slots[b].Repr
      {
        if a != index && b != index {
          assert old(slots[a].Repr !! slots[b].Repr);
        }
      }
    }

    /** `set`: the load check first; a resize that meets a non-empty
        bucket throws and leaves the table emptied. Otherwise a missing
        bucket gets a one-node list and `length` grows by one, and a present
        bucket is updated in place by `Put` with `length` unchanged. */
    method Set(key: Key, value: V) returns (status: Status)
      requires Valid()
      modifies Repr
      ensures Valid() && fresh(Repr - old(Repr))
      ensures var grow := NeedsResize(old(length), old(deleted), old(capacity));
              capacity == (if grow then SizeRatio * old(capacity) else old(capacity))
      ensures NeedsResize(old(length), old(deleted), old(capacity)) && old(length) > 0 ==>
                status == Thrown(TypeError) && length == 0 && Buckets == EmptyBuckets(capacity)
      ensures !(NeedsResize(old(length), old(deleted), old(capacity)) && old(length) > 0) ==>
                var grow := NeedsResize(old(length), old(deleted), old(capacity));
                var before := if grow then EmptyBuckets(capacity) else old(Buckets);
                var b := HomeSlot(key, capacity);
                && status == Done
                && Buckets == before[b := Put(before[b], key, value)]
                && length == (if grow then 0 else old(length)) + (if before[b] == [] then 1 else 0)
    {
      if NeedsResize(length, deleted, capacity) {
        var s := Resize(capacity * SizeRatio);
        if s.Thrown? {
          return s;
        }
      }
      var index := FindSlot(key);
      if slots[index] == null {
        StartBucket(index, key, value);
      } else {
        UpdateBucket(index, key, value);
      }
      return Done;
    }

    /** The empty-bucket branch of `set`: a new list holding the one entry,
        and `length` counts one more non-empty bucket. */
    method StartBucket(index: nat, key: Key, value: V)
      requires Valid() && index == HomeSlot(key, capacity) && slots[index] == null
      modifies this
      ensures Valid() && fresh(Repr - old(Repr))
      ensures capacity == old(capacity) && deleted == old(deleted)
      ensures Buckets == old(Buckets)[index := Put(old(Buckets)[index], key, value)]
      ensures length == old(length) + 1
    {
      WellFormedAfterPut(Buckets, capacity, length, key, value);
      var list := new LinkedList<Entry<V>>();
      list.InsertLast(Entry(key, value));
      slots := slots[index := list];
      length := length + 1;
      Repr := Repr + list.Repr;
      Buckets := Buckets[index := list.Contents];
      ListsValidAfterBucketChange(index, list);
    }

    /** The non-empty-bucket branch of `set`: walk the list; overwrite the
        first node with the key in place, or append a node. `length` does
        not change. */
    method UpdateBucket(index: nat, key: Key, value: V)
      requires Valid() && index == HomeSlot(key, capacity) && slots[index] != null
      modifies Repr
      ensures Valid() && fresh(Repr - old(Repr))
      ensures capacity == old(capacity) && deleted == old(deleted)
      ensures Buckets == old(Buckets)[index := Put(old(Buckets)[index], key, value)]
      ensures length == old(length)
      ensures slots == old(slots)
    {
      WellFormedAfterPut(Buckets, capacity, length, key, value);
      var list := slots[index];
      assert list.Valid() && list.Contents == Buckets[index];
      var tempNode := list.head;
      ghost var i := 0;
      while tempNode != null && tempNode.value.key != key
        invariant i <= |list.Nodes|
        invariant tempNode == if i < |list.Nodes| then list.Nodes[i] else null
        invariant forall j :: 0 <= j < i ==> list.Contents[j].key != key
        decreases |list.Nodes| - i
      {
        tempNode := tempNode.next;
        i := i + 1;
      }
      if tempNode != null {
        OverwriteNode(index, tempNode, i, key, value);
        return;
      }
      list.InsertLast(Entry(key, value));
      Repr := Repr + list.Repr;
      Buckets := Buckets[index := list.Contents];
      ListsValidAfterBucketChange(index, list);
    }

    /** `tempNode.value = { key, value }`: overwrite, in place, the node at
        position `i` of bucket `index`'s list, the first one holding `key`. */
    method OverwriteNode(index: nat, node: Node<Entry<V>>, ghost i: nat, key: Key, value: V)
      requires Valid() && index < capacity && slots[index] != null
      requires i < |slots[index].Nodes| && node == slots[index].Nodes[i]
      requires i == FirstIndex(Buckets[index], key)
      requires WellFormed(Buckets[index := Put(Buckets[index], key, value)], capacity, length)
      modifies Repr
      ensures Valid() && Repr == old(Repr)
      ensures capacity == old(capacity) && deleted == old(deleted) && length == old(length)
      ensures slots == old(slots)
      ensures Buckets == old(Buckets)[index := Put(old(Buckets)[index], key, value)]
    {
      var list := slots[index];
      assert list.Valid() && list.Contents == Buckets[index];
      node.value := Entry(key, value);
      list.Contents := list.Contents[i := Entry(key, value)];
      Buckets := Buckets[index := list.Contents];
      assert list.Valid() by {
        assert forall j :: 0 <= j < |list.Nodes| && j != i ==> list.Nodes[j] != node;
      }
      ListsValidAfterBucketChange(index, list);
    }

    /** `_resize`: the table is emptied at capacity `size`; re-inserting
        then reads `slot.value.key` on a `LinkedList`, which has no `value`,
        so the first non-empty old bucket throws. */
    method Resize(size: int) returns (status: Status)
      requires Valid() && size >= 1
      modifies this
      ensures Valid() && Repr == old(Repr)
      ensures capacity == size && length == 0 && deleted == 0
      ensures Buckets == EmptyBuckets(size)
      ensures status == if old(length) == 0 then Done else Thrown(TypeError)
    {
      var oldSlots := slots;
      ghost var oldBuckets := Buckets;
      NonEmptyCountZero(Buckets);
      assert forall j :: 0 <= j < |oldSlots| && oldSlots[j] != null ==> oldBuckets[j] != [];
      capacity := size;
      length := 0;
      deleted := 0;
      slots := NoLists<V>(size);
      Buckets := EmptyBuckets(size);
      EmptyWellFormed<V>(size);
      for i := 0 to |oldSlots|
        invariant forall j :: 0 <= j < i ==> oldSlots[j] == null
      {
        if oldSlots[i] != null {
          return Thrown(TypeError);
        }
      }
      assert forall j :: 0 <= j < |oldBuckets| ==> oldBuckets[j] == [];
      return Done;
    }

    /** `remove` computes a bucket number; `index.value` of a number is
        `undefined`, so the assignment `index.value.deleted = true` throws
        before any field changes. */
    method Remove(key: Key) returns (status: Status)
      requires Valid()
      ensures status == Thrown(TypeError)
    {
      var index := FindSlot(key);
      return Thrown(TypeError);
    }
  }
}
