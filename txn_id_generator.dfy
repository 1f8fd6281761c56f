/**
 * Transaction ids (src/transaction/simple-txn-id-generator.cpp,
 * include/transaction/txn-id-generator.h): each executor draws ids from its
 * own range [start, end), cycling.
 */
module TxnIdGenerators {
  import opened Configuration

  /** The position after `offset` in a cycle of `width` positions. */
  function Step(width: int, offset: int): int {
    if offset + 1 == width then 0 else offset + 1
  }

  /** The position k calls after `offset`. */
  function Iterate(width: int, offset: int, k: nat): int {
    if k == 0 then offset else Step(width, Iterate(width, offset, k - 1))
  }

  /** Within one turn of the cycle the position advances by k, wrapping at most once. */
  lemma {:induction false} IterateClosedForm(width: int, offset: int, k: nat)
    requires 0 <= offset < width && k <= width
    ensures Iterate(width, offset, k) == if offset + k < width then offset + k else offset + k - width
  {
    if k > 0 {
      IterateClosedForm(width, offset, k - 1);
    }
  }

  /** Any `width` consecutive ids are pairwise distinct and stay inside the range. */
  lemma ConsecutiveIdsDistinct(start: int, width: int, offset: int, a: nat, b: nat)
    requires 0 <= offset < width
    requires 1 <= a < b <= width
    ensures start + Iterate(width, offset, a) != start + Iterate(width, offset, b)
    ensures 0 <= Iterate(width, offset, a) < width
  {
    IterateClosedForm(width, offset, a);
    IterateClosedForm(width, offset, b);
  }

  class SimpleTxnIdGenerator {
    var id: int
    const start: int
    const end: int

    ghost predicate Valid()
      reads this
    {
      start <= id < end
    }

    /**
     * SimpleTxnIDGenerator(base, interval): the range [base, base + interval),
     * with id_ at base so the first id handed out is base + 1 (or base when
     * interval is 1). base + interval must not overflow.
     */
    constructor(base: int, interval: int)
      requires IsInt64(base) && interval >= 1 && IsInt64(base + interval)
      ensures start == base && end == base + interval && id == base
      ensures Valid()
    {
      start := base;
      end := base + interval;
      id := base;
    }

    /** GenerateID(): the next position of the cycle over [start, end). */
    method GenerateID() returns (r: int)
      requires Valid()
      modifies this
      ensures Valid()
      ensures r == id
      ensures id == start + Step(end - start, old(id) - start)
      ensures start <= r < end
    {
      id := id + 1;
      if id == end {
        id := start;
      }
      r := id;
    }
  }
}
