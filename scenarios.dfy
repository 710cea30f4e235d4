/** Client call sequences on both tables, as the demonstrations in
    hash.js make them. */
module Scenarios {
  import opened Failures
  import opened StringHash
  import opened OpenAddressing
  import opened Chaining

  /** The first three calls of the demonstration: a second `set` of
      "Hobbit" overwrites the first, so the table holds two entries and
      answers "Frodo". */
  method HobbitOverwrite(hobbit: Key, wizard: Key) returns (answer: Result<string>, size: int)
    requires hobbit != wizard
    ensures answer == Ok("Frodo") && size == 2
  {
    var hash := new HashMap<string>();
    hash.Set(hobbit, "Bilbo");
    hash.Set(hobbit, "Frodo");
    hash.Set(wizard, "Gandolf");
    answer := hash.Get(hobbit);
    size := hash.length;
  }

  /** A default table of capacity 8 keeps its capacity for seven fresh
      keys and triples to 24 on the eighth. */
  method GrowthOnEighthKey(keys: seq<Key>) returns (before: int, after: int)
    requires |keys| == 8
    requires forall i, j :: 0 <= i < j < 8 ==> keys[i] != keys[j]
    ensures before == 8 && after == 24
  {
    var hash := new HashMap<int>();
    for i := 0 to 7
      invariant hash.Valid() && hash.capacity == 8 && hash.deleted == 0
      invariant hash.length == i
      invariant forall k :: k in hash.Contents ==> k in keys[..i]
    {
      hash.Set(keys[i], i);
    }
    before := hash.capacity;
    hash.Set(keys[7], 7);
    after := hash.capacity;
  }

  /** A chained table answers what was stored: `set` then `get` of one key
      gives the value. */
  method ChainedSetThenGet(key: Key) returns (answer: Result<Option<string>>)
    ensures answer == Ok(Some("Bilbo"))
  {
    var hash := new ChainHash<string>();
    var s := hash.Set(key, "Bilbo");
    PutThenFind<string>([], key, "Bilbo");
    answer := hash.Get(key);
  }

  /** Two distinct keys with the same home bucket share one list: both
      answer their values, yet `length` counts one, because it counts
      non-empty buckets. */
  method ChainedSharedBucket(first: Key, second: Key)
    returns (a: Result<Option<string>>, b: Result<Option<string>>, size: int)
    requires first != second && HomeSlot(first, 8) == HomeSlot(second, 8)
    ensures a == Ok(Some("Bilbo")) && b == Ok(Some("Gandolf")) && size == 1
  {
    var hash := FillSharedBucket(first, second);
    SharedBucketAnswers(first, second);
    a := hash.Get(first);
    b := hash.Get(second);
    size := hash.length;
  }

  /** The two `set` calls of `ChainedSharedBucket` on a default table. */
  method FillSharedBucket(first: Key, second: Key) returns (hash: ChainHash<string>)
    requires HomeSlot(first, 8) == HomeSlot(second, 8)
    ensures fresh(hash) && hash.Valid() && hash.capacity == 8 && hash.length == 1
    ensures hash.Buckets[HomeSlot(first, 8)] == Put([Entry(first, "Bilbo")], second, "Gandolf")
  {
    hash := new ChainHash<string>();
    var s1 := hash.Set(first, "Bilbo");
    assert hash.capacity == 8 && hash.length == 1;
    assert hash.Buckets[HomeSlot(first, 8)] == [Entry(first, "Bilbo")];
    var s2 := hash.Set(second, "Gandolf");
  }

  /** The shared bucket answers each key's own value. */
  lemma SharedBucketAnswers(first: Key, second: Key)
    requires first != second
    ensures var shared := Put([Entry(first, "Bilbo")], second, "Gandolf");
            FirstMatch(shared, first) == Some("Bilbo") && FirstMatch(shared, second) == Some("Gandolf")
  {
    PutKeepsOthers([Entry(first, "Bilbo")], second, "Gandolf", first);
    PutThenFind([Entry(first, "Bilbo")], second, "Gandolf");
  }
}
