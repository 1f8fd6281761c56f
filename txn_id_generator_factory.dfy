/**
 * SimpleTxnIDGeneratorFactory (src/transaction/simple-txn-id-generator-factory.cpp,
 * include/transaction/txn-id-generator-factory.h): splits the positive
 * int64 range into `count` equal ranges, one per executor.
 */
module TxnIdGeneratorFactories {
  import opened Configuration
  import opened TxnIdGenerators

  /** count_ and interval_. */
  datatype Factory = Factory(count: int, interval: int)

  /**
   * The constructor: interval_ = INT64_MAX / count. C++ truncates toward
   * zero; for the non-negative INT64_MAX that is Dafny's division too.
   */
  function NewFactory(count: int): (f: Factory)
    requires count != 0 && -INT32_MAX - 1 <= count <= INT32_MAX
    ensures f.count == count
    ensures count > 0 ==> f.interval >= 1 && f.interval * count <= INT64_MAX
  {
    var q := INT64_MAX / count;
    assert count > 0 ==> q * count + INT64_MAX % count == INT64_MAX && INT64_MAX % count >= 0;
    assert count > 0 ==> q >= 1 by {
      if count > 0 && q < 1 {
        assert q <= 0;
        MulMonotone(count, q, 0);
      }
    }
    Factory(count, q)
  }

  /** The range handed to executor e: [interval * e, interval * e + interval). */
  function RangeStart(f: Factory, e: int): int {
    f.interval * e
  }

  lemma MulMonotone(x: int, a: int, b: int)
    requires x >= 0 && a <= b
    ensures x * a <= x * b
  {
  }

  /**
   * For every executor id below count the range fits int64 without
   * overflow, and two different executors get disjoint ranges.
   */
  lemma RangesFitAndDisjoint(count: int, e1: int, e2: int)
    requires 0 < count <= INT32_MAX
    requires 0 <= e1 < count && 0 <= e2 < count
    ensures var f := NewFactory(count);
      0 <= RangeStart(f, e1) && RangeStart(f, e1) + f.interval <= INT64_MAX
    ensures var f := NewFactory(count);
      e1 < e2 ==> RangeStart(f, e1) + f.interval <= RangeStart(f, e2)
  {
    var f := NewFactory(count);
    MulMonotone(f.interval, e1 + 1, count);
    if e1 < e2 {
      MulMonotone(f.interval, e1 + 1, e2);
    }
  }

  /** GetTxnIDGenerator(executor_id): a new generator over that executor's range. */
  method GetTxnIDGenerator(f: Factory, executorId: int) returns (g: SimpleTxnIdGenerator)
    requires f.interval >= 1 && IsInt64(f.interval)
    requires IsInt64(f.interval * executorId) && IsInt64(f.interval * executorId + f.interval)
    ensures fresh(g) && g.Valid()
    ensures g.start == RangeStart(f, executorId) && g.end == g.start + f.interval
  {
    g := new SimpleTxnIdGenerator(f.interval * executorId, f.interval);
  }
}
