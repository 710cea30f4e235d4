/** The growth policy both tables share: `MAX_LOAD_RATIO = 0.9` and
    `SIZE_RATIO = 3`. The ratio test is kept in integers. */
module LoadPolicy {

  const MaxLoadNumerator: nat := 9
  const MaxLoadDenominator: nat := 10
  const SizeRatio: nat := 3

  /** The load check that `set` makes before placing an entry:
      `(length + deleted + 1) / capacity > 0.9`. For any positive capacity
      it passes exactly once `length + deleted` reaches nine tenths of the
      capacity, rounded down. */
  predicate NeedsResize(length: int, deleted: int, capacity: int)
    ensures capacity >= 1 ==>
              (NeedsResize(length, deleted, capacity) <==>
               length + deleted >= MaxLoadNumerator * capacity / MaxLoadDenominator)
  {
    MaxLoadDenominator * (length + deleted + 1) > MaxLoadNumerator * capacity
  }

  /** The integer test decides exactly as the exact ratio test with 9/10. */
  lemma NeedsResizeIsRatioTest(length: int, deleted: int, capacity: int)
    requires capacity > 0
    ensures NeedsResize(length, deleted, capacity)
        <==> (length + deleted + 1) as real / capacity as real > 0.9
  {
    var x := (length + deleted + 1) as real;
    var c := capacity as real;
    var r := x / c;
    assert r * c == x;
    ScaleByPositive(r, 0.9, c);
    assert (MaxLoadDenominator * (length + deleted + 1)) as real == 10.0 * x;
    assert (MaxLoadNumerator * capacity) as real == 9.0 * c;
  }

  /** Multiplying both sides by a positive number keeps a strict order. */
  lemma ScaleByPositive(a: real, b: real, c: real)
    requires c > 0.0
    ensures a > b <==> a * c > b * c
  {
    if a > b {
      assert a * c - b * c == (a - b) * c;
    } else {
      assert b * c - a * c == (b - a) * c;
    }
  }
}
