/**
 * The executor that is handed every request up front
 * (include/transaction/all-at-once-transaction-executor.h,
 * src/transaction/all-at-once-transaction-executor.cpp). Requests sit in a
 * pool in arrival order; a session is a Begin followed by its requests up
 * to and including the first Commit or Abort, with nothing of another
 * session in between. Launching gives each waiting session a free slot,
 * whole; advancing sweeps the slots until some transaction finishes.
 */
module AllAtOnceExecutors {
  import opened Wrappers
  import opened TimeProviders
  import opened TxnIdGenerators
  import opened ExecutorSteps
  import opened TransactionExecutors
  import Requests

  type Request = Requests.OperationRequest

  /** The first Commit or Abort at or after k. */
  function Closer(p: seq<Request>, k: nat): (c: Option<nat>)
    decreases |p| - k
    ensures c.Some? ==> k <= c.value < |p|
  {
    if k >= |p| then None
    else if Requests.EndsSession(p[k].operationType) then Some(k)
    else Closer(p, k + 1)
  }

  /** Closer finds the first Commit or Abort at or after k, and None means there is none. */
  lemma {:induction false} CloserIsFirst(p: seq<Request>, k: nat)
    decreases |p| - k
    ensures Closer(p, k).Some? ==> k <= Closer(p, k).value < |p| && Requests.EndsSession(p[Closer(p, k).value].operationType)
                                   && forall m :: k <= m < Closer(p, k).value ==> !Requests.EndsSession(p[m].operationType)
    ensures Closer(p, k).None? ==> forall m :: k <= m < |p| ==> !Requests.EndsSession(p[m].operationType)
  {
    if k < |p| && !Requests.EndsSession(p[k].operationType) {
      CloserIsFirst(p, k + 1);
    }
  }

  /**
   * From i on the pool is a run of whole sessions: each starts with a
   * Begin, ends at the first Commit or Abort after it, and every request
   * in it carries the Begin's session id.
   */
  predicate Sessions(p: seq<Request>, i: nat)
    decreases |p| - i
  {
    if i >= |p| then i == |p|
    else
      p[i].operationType == Requests.Begin
      && match Closer(p, i + 1)
         case None => false
         case Some(c) => (forall m :: i <= m <= c ==> p[m].sessionId == p[i].sessionId) && Sessions(p, c + 1)
  }

  /** The number of sessions from i on. */
  function SessionCount(p: seq<Request>, i: nat): nat
    decreases |p| - i
  {
    if i >= |p| then 0
    else match Closer(p, i + 1)
      case None => 1
      case Some(c) => 1 + SessionCount(p, c + 1)
  }

  /** The number of Commits and Aborts in s. */
  function Ends(s: seq<Request>): nat {
    if s == [] then 0 else (if Requests.EndsSession(s[0].operationType) then 1 else 0) + Ends(s[1..])
  }

  /** Counting closers distributes over concatenation. */
  lemma {:induction false} EndsAppend(a: seq<Request>, b: seq<Request>)
    ensures Ends(a + b) == Ends(a) + Ends(b)
  {
    if a != [] {
      assert (a + b)[1..] == a[1..] + b;
      EndsAppend(a[1..], b);
    } else {
      assert a + b == b;
    }
  }

  /** From k on, a session's slice holds exactly its one closer at c. */
  lemma {:induction false} EndsOfSession(p: seq<Request>, k: nat, c: nat)
    requires k <= c < |p| && Requests.EndsSession(p[c].operationType)
    requires forall m :: k <= m < c ==> !Requests.EndsSession(p[m].operationType)
    ensures Ends(p[k..c + 1]) == 1
    decreases c - k
  {
    if k == c {
      assert p[k..c + 1] == [p[c]];
      assert [p[c]][1..] == [];
    } else {
      assert p[k..c + 1][1..] == p[k + 1..c + 1];
      EndsOfSession(p, k + 1, c);
    }
  }

  /**
   * Over a run of whole sessions, there are as many sessions as Commits
   * and Aborts: the count does not depend on where sessions are cut.
   */
  lemma {:induction false} SessionCountIsEnds(p: seq<Request>, i: nat)
    requires Sessions(p, i)
    ensures SessionCount(p, i) == Ends(p[i..])
    decreases |p| - i
  {
    if i < |p| {
      var c := Closer(p, i + 1).value;
      CloserIsFirst(p, i + 1);
      assert !Requests.EndsSession(p[i].operationType);
      EndsOfSession(p, i, c);
      assert p[i..] == p[i..c + 1] + p[c + 1..];
      EndsAppend(p[i..c + 1], p[c + 1..]);
      SessionCountIsEnds(p, c + 1);
    } else {
      assert p[i..] == [];
    }
  }

  /** The session that starts at i: the requests from i to its closer, both included. */
  function SessionAt(p: seq<Request>, i: nat): seq<Request>
    requires i < |p| && Closer(p, i + 1).Some?
  {
    p[i..Closer(p, i + 1).value + 1]
  }

  /** A session begins with its Begin and ends with its one Commit or Abort. */
  lemma SessionShape(p: seq<Request>, i: nat)
    requires i < |p| && Closer(p, i + 1).Some?
    ensures var s := SessionAt(p, i);
            |s| >= 2 && s[0] == p[i] && Requests.EndsSession(s[|s| - 1].operationType)
            && forall m :: 0 < m < |s| - 1 ==> !Requests.EndsSession(s[m].operationType)
  {
    CloserIsFirst(p, i + 1);
  }

  /** The slot a launch gives the session that starts at a: in use by that session and holding it whole. */
  function SessionSlot(p: seq<Request>, a: nat): SlotView
    requires a < |p| && Closer(p, a + 1).Some?
  {
    SlotView(true, p[a].sessionId, SessionAt(p, a))
  }

  /** Where a launch searches next: slot 0 at first, then one past the slot it filled last. */
  function SearchPoint(placed: seq<nat>): nat {
    if placed == [] then 0 else placed[|placed| - 1] + 1
  }

  /**
   * The search of one launch over the slots v0 it started from: each slot
   * it filled is the lowest slot free in v0 from the search point the
   * slots before it leave. The search never goes back.
   */
  ghost predicate Searched(v0: seq<SlotView>, placed: seq<nat>)
    decreases |placed|
  {
    placed == []
    || (Searched(v0, placed[..|placed| - 1])
        && FirstFree(v0, SearchPoint(placed[..|placed| - 1])) == Some(placed[|placed| - 1]))
  }

  /**
   * The sessions one launch reads, in pool order from `from` to `to`: the
   * first starts at from, each next one just past the Commit or Abort of
   * the one before, and `to` lies just past the last one's Commit or Abort.
   */
  ghost predicate Consumed(p: seq<Request>, from: nat, starts: seq<nat>, to: nat)
    decreases |starts|
  {
    if starts == [] then to == from
    else
      var a := starts[|starts| - 1];
      a < |p| && Closer(p, a + 1).Some? && to == Closer(p, a + 1).value + 1
      && Consumed(p, from, starts[..|starts| - 1], a)
  }

  /**
   * The slots v after a launch from v0: slot placed[k] holds, whole, the
   * session that starts at starts[k], and every slot not placed is as it
   * was in v0.
   */
  ghost predicate Placed(v0: seq<SlotView>, v: seq<SlotView>, p: seq<Request>, placed: seq<nat>, starts: seq<nat>) {
    |v0| == |v| && |placed| == |starts|
    && (forall k :: 0 <= k < |placed| ==>
          placed[k] < |v| && starts[k] < |p| && Closer(p, starts[k] + 1).Some? && v[placed[k]] == SessionSlot(p, starts[k]))
    && (forall i :: 0 <= i < |v| && i !in placed ==> v[i] == v0[i])
  }

  /** The slots a launch fills were free before it, are in range, and increase strictly, all before the next search point. */
  lemma {:induction false} SearchedIncreasing(v0: seq<SlotView>, placed: seq<nat>)
    requires Searched(v0, placed)
    ensures forall k :: 0 <= k < |placed| ==> placed[k] < |v0| && !v0[placed[k]].inUse && placed[k] < SearchPoint(placed)
    ensures forall k, m :: 0 <= k < m < |placed| ==> placed[k] < placed[m]
    decreases |placed|
  {
    if placed != [] {
      var n := |placed| - 1;
      var q := placed[..n];
      SearchedIncreasing(v0, q);
      assert forall k :: 0 <= k < n ==> placed[k] == q[k];
    }
  }

  /** Reading the session at a extends the sessions read, up to just past its Commit or Abort. */
  lemma ConsumedStep(p: seq<Request>, from: nat, starts: seq<nat>, a: nat)
    requires Consumed(p, from, starts, a) && a < |p| && Closer(p, a + 1).Some?
    ensures Consumed(p, from, starts + [a], Closer(p, a + 1).value + 1)
  {
    assert (starts + [a])[..|starts|] == starts;
  }

  /**
   * One step of a launch: the search from `last` found slot j, and the
   * session at a goes into it. The slots placed so far all lie before
   * last, so j is new, it is the lowest slot free in v0 from last on, and
   * every slot not placed still holds what it held in v0.
   */
  lemma LaunchStep(v0: seq<SlotView>, v: seq<SlotView>, p: seq<Request>, placed: seq<nat>, starts: seq<nat>,
                   j: nat, a: nat)
    requires Placed(v0, v, p, placed, starts) && a < |p| && Closer(p, a + 1).Some? && Searched(v0, placed)
    requires SearchPoint(placed) <= j < |v| && !v[j].inUse && forall m :: SearchPoint(placed) <= m < j ==> v[m].inUse
    ensures Searched(v0, placed + [j])
    ensures Placed(v0, v[j := SessionSlot(p, a)], p, placed + [j], starts + [a])
  {
    SearchedIncreasing(v0, placed);
    SearchStep(v0, v, p, placed, starts, j);
    PlaceStep(v0, v, p, placed, starts, j, a);
  }

  /** The search from the search point found j in v: j is the lowest slot free in v0 from there. */
  lemma SearchStep(v0: seq<SlotView>, v: seq<SlotView>, p: seq<Request>, placed: seq<nat>, starts: seq<nat>, j: nat)
    requires Placed(v0, v, p, placed, starts) && Searched(v0, placed)
    requires forall k :: 0 <= k < |placed| ==> placed[k] < SearchPoint(placed)
    requires SearchPoint(placed) <= j < |v| && !v[j].inUse && forall m :: SearchPoint(placed) <= m < j ==> v[m].inUse
    ensures Searched(v0, placed + [j])
  {
    var last := SearchPoint(placed);
    assert j !in placed;
    forall m | last <= m < j
      ensures v0[m].inUse
    {
      assert m !in placed;
    }
    FirstFreeIs(v0, last, j);
    assert (placed + [j])[..|placed|] == placed;
  }

  /** Putting the session at a into slot j, not yet placed, extends the placement by that pair. */
  lemma PlaceStep(v0: seq<SlotView>, v: seq<SlotView>, p: seq<Request>, placed: seq<nat>, starts: seq<nat>, j: nat, a: nat)
    requires Placed(v0, v, p, placed, starts) && a < |p| && Closer(p, a + 1).Some?
    requires j < |v| && j !in placed
    ensures Placed(v0, v[j := SessionSlot(p, a)], p, placed + [j], starts + [a])
  {
    var w := v[j := SessionSlot(p, a)];
    var pl := placed + [j];
    var st := starts + [a];
    forall k | 0 <= k < |pl|
      ensures pl[k] < |w| && st[k] < |p| && Closer(p, st[k] + 1).Some? && w[pl[k]] == SessionSlot(p, st[k])
    {
      if k < |placed| {
        assert pl[k] == placed[k] && st[k] == starts[k];
      }
    }
    forall i | 0 <= i < |w| && i !in pl
      ensures w[i] == v0[i]
    {
      assert i !in placed && i != j;
    }
  }

  /**
   * A launch from the slots v0 and pool index `from` has read the sessions
   * at starts, up to pool index `to`, into the slots placed, which turned
   * v0 into v; it searches next from last.
   */
  ghost predicate Progress(v0: seq<SlotView>, v: seq<SlotView>, p: seq<Request>, from: nat, to: nat,
                           placed: seq<nat>, starts: seq<nat>, last: nat) {
    |placed| == |starts| && Searched(v0, placed) && Consumed(p, from, starts, to) && last == SearchPoint(placed)
    && Placed(v0, v, p, placed, starts)
  }

  /** The session at a going into the slot j the search from last finds is one more step of the launch. */
  lemma ProgressStep(v0: seq<SlotView>, v: seq<SlotView>, p: seq<Request>, from: nat, a: nat,
                     placed: seq<nat>, starts: seq<nat>, last: nat, j: nat)
    requires Progress(v0, v, p, from, a, placed, starts, last) && a < |p| && Sessions(p, a)
    requires last <= j < |v| && !v[j].inUse && forall m :: last <= m < j ==> v[m].inUse
    ensures Closer(p, a + 1).Some?
    ensures Progress(v0, v[j := SessionSlot(p, a)], p, from, Closer(p, a + 1).value + 1, placed + [j], starts + [a], j + 1)
  {
    SessionOpen(p, a);
    LaunchStep(v0, v, p, placed, starts, j, a);
    ConsumedStep(p, from, starts, a);
  }

  /** A slice grows by the element at its end. */
  lemma SliceExtend<T>(p: seq<T>, a: nat, b: nat)
    requires a <= b < |p|
    ensures p[a..b + 1] == p[a..b] + [p[b]]
  {
  }

  /** A Commit or Abort no later than the first one after start is that one. */
  lemma FirstCloser(p: seq<Request>, start: nat, k: nat, c: nat)
    requires start < k <= c < |p| && Requests.EndsSession(p[k].operationType)
    requires forall m :: start < m < c ==> !Requests.EndsSession(p[m].operationType)
    ensures k == c
  {
  }

  class AllAtOnceExecutor {
    const base: TransactionExecutor
    const capacity: nat
    /** request_queue_pool_[0 .. push_index_). */
    var pool: seq<Request>
    var popIndex: nat
    /** The sessions launched so far. */
    ghost var launched: nat
    ghost const Repr: set<object>

    ghost predicate Valid()
      reads this, Repr
    {
      Repr == {this, base} + base.Repr && this !in base.Repr && base.Valid()
      && |pool| <= capacity && popIndex <= |pool|
      && (forall i :: 0 <= i < |pool| ==> pool[i] in base.served)
      && base.commitCount + base.abortCount + base.active <= launched
    }

    /**
     * AllAtOnceTransactionExecutor(...): concurrent_txn_count free slots,
     * an empty pool of the given capacity, and both indices at 0.
     */
    constructor(id: int, n: nat, clk: LocalTimeProvider, gen: SimpleTxnIdGenerator, txLog: bool, logEnabled: bool,
                driver: bool, cap: nat)
      requires clk.Valid() && gen.Valid()
      ensures Valid() && fresh(Repr - {clk, gen})
      ensures base.count == n && base.hasDriver == driver && capacity == cap
      ensures pool == [] && popIndex == 0 && base.active == 0 && !base.crashed
    {
      var b := new TransactionExecutor(id, n, clk, gen, txLog, logEnabled, driver);
      base := b;
      capacity := cap;
      pool := [];
      popIndex := 0;
      launched := 0;
      Repr := {this, b} + b.Repr;
    }

    /** AddRequest(request): stored at push_index_, which moves one on; the pool has room for it. */
    method AddRequest(r: Request)
      requires Valid() && |pool| < capacity
      modifies this, base
      ensures Valid() && pool == old(pool) + [r] && popIndex == old(popIndex)
      ensures base.active == old(base.active) && base.crashed == old(base.crashed)
      ensures base.commitCount == old(base.commitCount) && base.abortCount == old(base.abortCount)
    {
      base.Admit(r);
      pool := pool + [r];
    }

    /** IsFinished(): every request was launched and no slot is in use. */
    predicate IsFinished()
      reads this, base
    {
      popIndex == |pool| && base.active == 0
    }

    /** Finished means idle, and only that: every request launched and no transaction in any slot. */
    lemma FinishedIsIdle()
      requires Valid()
      ensures IsFinished() <==> popIndex == |pool| && forall i :: 0 <= i < base.count ==> !base.tasks[i].inUse
    {
      base.IdleSlots();
    }

    /**
     * LaunchRequests(): while requests wait and some slot is free, the
     * next session goes whole into the lowest free slot after the one the
     * previous session took (from slot 0 for the first). It stops when the
     * pool is drained or every slot is in use. The "no empty txn task"
     * throw cannot happen: with fewer active slots than slots, and every
     * slot before the search point taken, a free one lies at or after it.
     * The k-th session read, which starts at starts[k], goes into slot
     * placed[k]; every other slot keeps what it had.
     */
    method LaunchRequests(now: int) returns (ghost placed: seq<nat>, ghost starts: seq<nat>)
      requires Valid() && Sessions(pool, popIndex)
      modifies Repr
      ensures Valid() && pool == old(pool) && Sessions(pool, popIndex) && old(popIndex) <= popIndex
      ensures popIndex == |pool| || base.active == base.count
      ensures launched - old(launched) == base.active - old(base.active)
                                       == SessionCount(pool, old(popIndex)) - SessionCount(pool, popIndex)
      ensures |placed| == |starts| == launched - old(launched)
      ensures Searched(old(base.view), placed) && Consumed(pool, old(popIndex), starts, popIndex)
      ensures base.crashed == old(base.crashed) && base.served == old(base.served)
      ensures base.commitCount == old(base.commitCount) && base.abortCount == old(base.abortCount)
      ensures Placed(old(base.view), base.view, pool, placed, starts)
      ensures forall k, m :: 0 <= k < m < |placed| ==> placed[k] < placed[m]
    {
      placed, starts := [], [];
      var last: nat := 0;
      while popIndex < |pool| && base.active < base.count
        invariant Valid() && pool == old(pool) && Sessions(pool, popIndex) && old(popIndex) <= popIndex
        invariant forall k :: 0 <= k < last && k < base.count ==> base.view[k].inUse
        invariant launched - old(launched) == base.active - old(base.active)
                                           == SessionCount(pool, old(popIndex)) - SessionCount(pool, popIndex)
        invariant base.crashed == old(base.crashed) && base.served == old(base.served)
        invariant base.commitCount == old(base.commitCount) && base.abortCount == old(base.abortCount)
        invariant Launching(old(base.view), old(popIndex), old(launched), placed, starts, last)
        decreases |pool| - popIndex
      {
        ghost var a := popIndex;
        var j := LaunchNext(now, old(base.view), old(popIndex), old(launched), placed, starts, last);
        placed, starts := placed + [j], starts + [a];
        last := j + 1;
      }
      SearchedIncreasing(old(base.view), placed);
    }

    /**
     * A launch from the slots v0 and pool index `from`, with l0 sessions
     * launched before it, is under way: it has read the sessions at starts
     * into the slots placed, and searches next from last.
     */
    ghost predicate Launching(v0: seq<SlotView>, from: nat, l0: nat, placed: seq<nat>, starts: seq<nat>, last: nat)
      reads this, base
    {
      |placed| == launched - l0 && Progress(v0, base.view, pool, from, popIndex, placed, starts, last)
    }

    /**
     * One round of LaunchRequests' outer loop: the lowest free slot j from
     * last on takes the session at pop_index_, whole.
     */
    method LaunchNext(now: int, ghost v0: seq<SlotView>, ghost from: nat, ghost l0: nat, ghost placed: seq<nat>,
                      ghost starts: seq<nat>, last: nat) returns (j: nat)
      requires Valid() && Sessions(pool, popIndex) && popIndex < |pool| && base.active < base.count
      requires forall k :: 0 <= k < last && k < base.count ==> base.view[k].inUse
      requires Launching(v0, from, l0, placed, starts, last)
      modifies Repr
      ensures Valid() && pool == old(pool) && old(popIndex) < popIndex && Sessions(pool, popIndex)
      ensures SessionCount(pool, old(popIndex)) == 1 + SessionCount(pool, popIndex)
      ensures launched == old(launched) + 1 && base.active == old(base.active) + 1
      ensures base.crashed == old(base.crashed) && base.served == old(base.served)
      ensures base.commitCount == old(base.commitCount) && base.abortCount == old(base.abortCount)
      ensures last <= j && forall k :: 0 <= k < j + 1 && k < base.count ==> base.view[k].inUse
      ensures Launching(v0, from, l0, placed + [j], starts + [old(popIndex)], j + 1)
    {
      ghost var v := base.view;
      ghost var a := popIndex;
      j := TakeFree(last, now);
      ProgressStep(v0, v, old(pool), from, a, placed, starts, last, j);
    }

    /** The lowest free slot j from last on takes the session at pop_index_, whole. */
    method TakeFree(last: nat, now: int) returns (j: nat)
      requires Valid() && Sessions(pool, popIndex) && popIndex < |pool| && base.active < base.count
      requires forall k :: 0 <= k < last && k < base.count ==> base.view[k].inUse
      modifies Repr
      ensures last <= j < base.count && !old(base.view)[j].inUse && forall m :: last <= m < j ==> old(base.view)[m].inUse
      ensures Valid() && pool == old(pool) && old(popIndex) < popIndex && Sessions(pool, popIndex)
      ensures SessionCount(pool, old(popIndex)) == 1 + SessionCount(pool, popIndex)
      ensures launched == old(launched) + 1 && base.active == old(base.active) + 1
      ensures base.crashed == old(base.crashed) && base.served == old(base.served)
      ensures base.commitCount == old(base.commitCount) && base.abortCount == old(base.abortCount)
      ensures Closer(pool, old(popIndex) + 1).Some? && popIndex == Closer(pool, old(popIndex) + 1).value + 1
      ensures base.view == old(base.view)[j := SessionSlot(pool, old(popIndex))]
    {
      base.FreeSlotExists(last);
      var found := base.FindFree(last);
      if found.None? {
        assert false;
      }
      j := found.value;
      BindSession(j, now);
    }

    /**
     * Advance(): sweeps over the slots, each followed by the handler's
     * SendBatch, until a sweep sees some transaction finish. Each sweep
     * takes the next round; a throw ends it at once. It sweeps at least
     * once, and it returns with a slot freed unless it crashed or ran out
     * of rounds; every sweep before the last freed nothing, so
     * `beforeLast`, the active count the last sweep started from, is the
     * count Advance started from. Slots only ever go free; their sessions
     * and queues stay.
     */
    method Advance(rounds: seq<Round>) returns (rest: seq<Round>, ghost beforeLast: int)
      requires Valid() && !base.crashed
      modifies Repr, base.served
      ensures Valid() && pool == old(pool) && popIndex == old(popIndex) && launched == old(launched)
      ensures base.served == old(base.served) && |base.view| == |old(base.view)|
      ensures |rest| <= |rounds| && rest == rounds[|rounds| - |rest|..]
      ensures rounds != [] ==> |rest| < |rounds|
      ensures base.active <= old(base.active)
      ensures base.crashed || rest == [] || base.active < old(base.active)
      ensures beforeLast == old(base.active)
      ensures forall k :: 0 <= k < |base.view| ==>
                (base.view[k].session == old(base.view[k].session) && base.view[k].queue == old(base.view[k].queue)
                 && (base.view[k].inUse ==> old(base.view[k].inUse)))
    {
      rest := rounds;
      beforeLast := base.active;
      var done := false;
      while !done && rest != [] && !base.crashed
        invariant Valid() && pool == old(pool) && popIndex == old(popIndex) && launched == old(launched)
        invariant base.served == old(base.served) && |base.view| == |old(base.view)|
        invariant |rest| <= |rounds| && rest == rounds[|rounds| - |rest|..]
        invariant rounds != [] ==> |rest| < |rounds| || (!done && rest == rounds && !base.crashed)
        invariant base.active <= old(base.active) && (done ==> base.active < old(base.active))
        invariant !done ==> base.active == old(base.active)
        invariant beforeLast == old(base.active)
        invariant forall k :: 0 <= k < |base.view| ==>
                    (base.view[k].session == old(base.view[k].session) && base.view[k].queue == old(base.view[k].queue)
                     && (base.view[k].inUse ==> old(base.view[k].inUse)))
        decreases |rest|
      {
        var r := rest[0];
        beforeLast := base.active;
        done := base.Sweep(AllAtOnce(base.hasDriver), r.now);
        if !base.crashed {
          base.DeliverAll(r.replies);
        }
        rest := rest[1..];
      }
    }

    /**
     * Run(): while requests wait or a transaction is in flight, launch and
     * advance; one round is one sweep. It stops finished, crashed, or out
     * of rounds. Every session it launched is one that was waiting.
     */
    method Run(rounds: seq<Round>) returns (rest: seq<Round>)
      requires Valid() && Sessions(pool, popIndex) && !base.crashed
      modifies Repr, base.served
      ensures Valid() && pool == old(pool) && Sessions(pool, popIndex) && old(popIndex) <= popIndex
      ensures |rest| <= |rounds|
      ensures base.crashed || rest == [] || IsFinished()
      ensures launched - old(launched) == SessionCount(pool, old(popIndex)) - SessionCount(pool, popIndex)
      ensures IsFinished() ==> launched - old(launched) == Ends(old(pool)[old(popIndex)..])
    {
      rest := rounds;
      while (popIndex != |pool| || base.active > 0) && rest != [] && !base.crashed
        invariant Valid() && pool == old(pool) && Sessions(pool, popIndex) && old(popIndex) <= popIndex
        invariant |rest| <= |rounds| && base.served == old(base.served)
        invariant launched - old(launched) == SessionCount(pool, old(popIndex)) - SessionCount(pool, popIndex)
        decreases |rest|
      {
        var _, _ := LaunchRequests(rest[0].now);
        ghost var beforeLast;
        rest, beforeLast := Advance(rest);
      }
      SessionCountIsEnds(pool, old(popIndex));
    }

    /**
     * The inner loop of LaunchRequests: slot j is taken by the session that
     * starts at pop_index_, which receives its every request; pop_index_
     * stops on the session's Commit or Abort and then moves one past it.
     * No other slot changes.
     */
    method BindSession(j: nat, now: int)
      requires Valid() && j < base.count && !base.view[j].inUse
      requires popIndex < |pool| && Sessions(pool, popIndex)
      modifies Repr
      ensures Valid() && pool == old(pool) && old(popIndex) < popIndex && Sessions(pool, popIndex)
      ensures SessionCount(pool, old(popIndex)) == 1 + SessionCount(pool, popIndex)
      ensures launched == old(launched) + 1 && base.active == old(base.active) + 1
      ensures base.crashed == old(base.crashed) && base.served == old(base.served)
      ensures base.commitCount == old(base.commitCount) && base.abortCount == old(base.abortCount)
      ensures Closer(pool, old(popIndex) + 1).Some? && popIndex == Closer(pool, old(popIndex) + 1).value + 1
      ensures base.view == old(base.view)[j := SessionSlot(pool, old(popIndex))]
    {
      var start := popIndex;
      assert Closer(pool, start + 1).Some? by { SessionOpen(pool, start); }
      var c := Bind(base, j, pool, start, now);
      SessionStep(pool, start, c);
      popIndex := c + 1;
      launched := launched + 1;
    }
  }

  /** A session that starts at i has a Commit or Abort after it. */
  lemma SessionOpen(p: seq<Request>, i: nat)
    requires i < |p| && Sessions(p, i)
    ensures Closer(p, i + 1).Some?
  {
  }

  /** Past the closer c of the session at i, the pool is whole sessions again, one fewer. */
  lemma SessionStep(p: seq<Request>, i: nat, c: nat)
    requires i < |p| && Sessions(p, i) && Closer(p, i + 1) == Some(c)
    ensures Sessions(p, c + 1) && SessionCount(p, i) == 1 + SessionCount(p, c + 1)
  {
  }

  /**
   * Slot j of b, free, is reset for the session whose Begin is at start
   * and receives the session's requests; the returned index is the
   * session's Commit or Abort.
   */
  method Bind(b: TransactionExecutor, j: nat, p: seq<Request>, start: nat, now: int) returns (k: nat)
    requires b.Valid() && j < b.count && !b.view[j].inUse
    requires start < |p| && Closer(p, start + 1).Some?
    requires forall i :: 0 <= i < |p| ==> p[i] in b.served
    modifies b.Repr
    ensures b.Valid() && Closer(p, start + 1) == Some(k)
    ensures b.view == old(b.view)[j := SlotView(true, p[start].sessionId, SessionAt(p, start))]
    ensures b.active == old(b.active) + 1 && b.crashed == old(b.crashed) && b.served == old(b.served)
    ensures b.commitCount == old(b.commitCount) && b.abortCount == old(b.abortCount)
  {
    var r := p[start];
    var c := Closer(p, start + 1).value;
    CloserIsFirst(p, start + 1);
    ghost var v0 := b.view;
    b.Take(j, r.sessionId, now);
    ghost var taken := b.view;
    assert taken == old(b.view)[j := SlotView(true, r.sessionId, [])];
    assert taken[j].queue + [r] == [r];
    b.Push(j, r);
    assert b.view == WithQueue(taken, j, [r]);
    assert p[start..start + 1] == [r];
    k := PushSession(b, j, p, start, c);
    WithQueueTwice(taken, j, [r], p[start..c + 1]);
    assert b.view == WithQueue(taken, j, p[start..c + 1]);
    assert SessionAt(p, start) == p[start..c + 1];
    assert WithQueue(taken, j, p[start..c + 1]) == v0[j := SlotView(true, r.sessionId, p[start..c + 1])];
  }

  /**
   * The loop of BindSession: pop_index_ moves on and each request of the
   * pool p is pushed onto slot j of b, up to and including the session's
   * Commit or Abort, where the returned index stops.
   */
  method PushSession(b: TransactionExecutor, j: nat, p: seq<Request>, start: nat, ghost c: nat) returns (k: nat)
    requires b.Valid() && j < b.count && start < c < |p|
    requires Requests.EndsSession(p[c].operationType)
    requires forall m :: start < m < c ==> !Requests.EndsSession(p[m].operationType)
    requires forall i :: 0 <= i < |p| ==> p[i] in b.served
    requires b.view[j].queue == p[start..start + 1]
    modifies b.Repr
    ensures b.Valid() && k == c
    ensures b.view == WithQueue(old(b.view), j, p[start..c + 1])
    ensures b.active == old(b.active) && b.crashed == old(b.crashed) && b.served == old(b.served)
    ensures b.commitCount == old(b.commitCount) && b.abortCount == old(b.abortCount)
  {
    k := start;
    while true
      invariant b.Valid() && start <= k < c
      invariant b.view == WithQueue(old(b.view), j, p[start..k + 1])
      invariant b.active == old(b.active) && b.crashed == old(b.crashed) && b.served == old(b.served)
      invariant b.commitCount == old(b.commitCount) && b.abortCount == old(b.abortCount)
      decreases c - k
    {
      ghost var before := b.view;
      k := k + 1;
      var q := p[k];
      SliceExtend(p, start, k);
      WithQueueTwice(old(b.view), j, p[start..k], p[start..k + 1]);
      assert before[j].queue == p[start..k];
      b.Push(j, q);
      assert b.view == WithQueue(WithQueue(old(b.view), j, p[start..k]), j, p[start..k + 1]);
      if Requests.EndsSession(q.operationType) {
        FirstCloser(p, start, k, c);
        break;
      }
    }
  }
}
