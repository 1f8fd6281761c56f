/**
 * The executor fed while it runs (include/transaction/runtime-transaction-executor.h,
 * src/transaction/runtime-transaction-executor.cpp). Requests arrive in a
 * bounded queue; launching reads them one at a time: a Begin takes the
 * lowest free slot, any other request goes to the lowest slot that carries
 * its session. A Begin that finds every slot in use is held back until the
 * next launch. Advancing is one sweep over the slots.
 */
module RuntimeExecutors {
  import opened Wrappers
  import opened TimeProviders
  import opened TxnIdGenerators
  import opened ExecutorSteps
  import opened TransactionExecutors
  import Requests

  type Request = Requests.OperationRequest

  /** The lowest slot at or after k whose session is s, in use or not. */
  function FirstSession(v: seq<SlotView>, s: int, k: nat): (r: Option<nat>)
    decreases |v| - k
    ensures r.Some? ==> k <= r.value < |v| && v[r.value].session == s
  {
    if k >= |v| then None
    else if v[k].session == s then Some(k)
    else FirstSession(v, s, k + 1)
  }

  /** A slot of session s with no slot of s before it, from k on, is the one FirstSession finds. */
  lemma {:induction false} FirstSessionIs(v: seq<SlotView>, s: int, k: nat, j: nat)
    requires k <= j < |v| && v[j].session == s
    requires forall m :: k <= m < j ==> v[m].session != s
    ensures FirstSession(v, s, k) == Some(j)
    decreases j - k
  {
    if k < j {
      FirstSessionIs(v, s, k + 1, j);
    }
  }

  /** With no slot of session s from k on, FirstSession finds none. */
  lemma {:induction false} FirstSessionNone(v: seq<SlotView>, s: int, k: nat)
    requires forall m :: k <= m < |v| ==> v[m].session != s
    ensures FirstSession(v, s, k) == None
    decreases |v| - k
  {
    if k < |v| {
      FirstSessionNone(v, s, k + 1);
    }
  }

  /** Where one request read by a launch goes: it waits, the launch throws, or the slots become w. */
  datatype Placement = Wait | Threw | Into(w: seq<SlotView>)

  /**
   * A Begin resets the lowest free slot and becomes its first request,
   * and waits when every slot is in use; any other request joins the
   * lowest slot of its session, and with no such slot the launch throws
   * "no session task". With fewer slots in use than slots a free one
   * exists, so "no empty txn task" is never thrown.
   */
  function PlaceSpec(r: Request, v: seq<SlotView>): Placement {
    if r.operationType == Requests.Begin then
      if Active(v) >= |v| then Wait
      else match FirstFree(v, 0)
        case None => Threw
        case Some(j) => Into(v[j := SlotView(true, r.sessionId, [r])])
    else match FirstSession(v, r.sessionId, 0)
      case None => Threw
      case Some(j) => Into(WithQueue(v, j, v[j].queue + [r]))
  }

  /** Placing a request keeps the number of slots and frees none; a waiting Begin found every slot in use. */
  lemma PlaceKeepsSlots(r: Request, v: seq<SlotView>)
    ensures PlaceSpec(r, v).Into? ==> |PlaceSpec(r, v).w| == |v| && Active(PlaceSpec(r, v).w) >= Active(v)
    ensures PlaceSpec(r, v).Wait? ==> r.operationType == Requests.Begin && Active(v) == |v|
  {
    if r.operationType == Requests.Begin {
      if Active(v) < |v| && FirstFree(v, 0).Some? {
        ActiveUpdate(v, FirstFree(v, 0).value, SlotView(true, r.sessionId, [r]));
      }
    } else if FirstSession(v, r.sessionId, 0).Some? {
      var j := FirstSession(v, r.sessionId, 0).value;
      ActiveUpdate(v, j, v[j].(queue := v[j].queue + [r]));
    }
  }

  /** Where a launch leaves the queue, the held request and the slots, and whether it threw. */
  datatype Launched = Launched(queue: seq<Request>, current: Option<Request>, view: seq<SlotView>, crashed: bool)

  /**
   * LaunchRequests on values: q is the queue, cur the request held over
   * from the last launch, v the slots. With nothing held the next request
   * is read, and an empty queue ends the launch; a held request is placed
   * as PlaceSpec says, and one that must wait ends the launch still held.
   */
  function LaunchSpec(q: seq<Request>, cur: Option<Request>, v: seq<SlotView>): Launched
    decreases |q|, if cur.Some? then 1 else 0
  {
    match cur
    case None =>
      if q == [] then Launched(q, None, v, false) else LaunchSpec(q[1..], Some(q[0]), v)
    case Some(r) =>
      match PlaceSpec(r, v)
      case Wait => Launched(q, cur, v, false)
      case Threw => Launched(q, cur, v, true)
      case Into(w) => LaunchSpec(q, None, w)
  }

  /** A launch keeps the number of slots and frees none. */
  lemma {:induction false} LaunchKeepsSlots(q: seq<Request>, cur: Option<Request>, v: seq<SlotView>)
    decreases |q|, if cur.Some? then 1 else 0
    ensures |LaunchSpec(q, cur, v).view| == |v| && Active(LaunchSpec(q, cur, v).view) >= Active(v)
  {
    match cur
    case None =>
      if q != [] {
        LaunchKeepsSlots(q[1..], Some(q[0]), v);
      }
    case Some(r) =>
      PlaceKeepsSlots(r, v);
      if PlaceSpec(r, v).Into? {
        LaunchKeepsSlots(q, None, PlaceSpec(r, v).w);
      }
  }

  /** A launch reads the queue from its front: what is left is a suffix of it. */
  lemma {:induction false} LaunchReadsInOrder(q: seq<Request>, cur: Option<Request>, v: seq<SlotView>)
    decreases |q|, if cur.Some? then 1 else 0
    ensures |LaunchSpec(q, cur, v).queue| <= |q|
    ensures LaunchSpec(q, cur, v).queue == q[|q| - |LaunchSpec(q, cur, v).queue|..]
  {
    match cur
    case None =>
      if q != [] {
        LaunchReadsInOrder(q[1..], Some(q[0]), v);
        var n := |LaunchSpec(q[1..], Some(q[0]), v).queue|;
        assert q[1..][|q| - 1 - n..] == q[|q| - n..];
      }
    case Some(r) =>
      if PlaceSpec(r, v).Into? {
        LaunchReadsInOrder(q, None, PlaceSpec(r, v).w);
      }
  }

  /**
   * A launch that does not throw ends in one of two ways: the queue is
   * drained and nothing is held, or a Begin is held because every slot is
   * in use.
   */
  lemma {:induction false} LaunchStops(q: seq<Request>, cur: Option<Request>, v: seq<SlotView>)
    decreases |q|, if cur.Some? then 1 else 0
    ensures var l := LaunchSpec(q, cur, v);
            !l.crashed ==> (l.current.None? && l.queue == [])
                           || (l.current.Some? && l.current.value.operationType == Requests.Begin
                               && Active(l.view) == |l.view|)
  {
    match cur
    case None =>
      if q != [] {
        LaunchStops(q[1..], Some(q[0]), v);
      }
    case Some(r) =>
      PlaceKeepsSlots(r, v);
      if PlaceSpec(r, v).Into? {
        LaunchStops(q, None, PlaceSpec(r, v).w);
      }
  }

  /**
   * The stopping test that Run's loop and IsFinished() are written with:
   * the queue is empty and no slot is in use. It does not look at the
   * request held over by the last launch.
   */
  predicate FinishedAsWritten(q: seq<Request>, active: int) {
    q == [] && active == 0
  }

  /** The stopping test the executor is meant to have: nothing queued, nothing held, no slot in use. */
  predicate Drained(q: seq<Request>, cur: Option<Request>, active: int) {
    q == [] && cur.None? && active == 0
  }

  /**
   * One slot and the queue Begin, Commit, Begin of two sessions: the first
   * session is launched whole and the second Begin is held with the queue
   * empty. Once the first transaction finishes no slot is in use, so the
   * written test says finished while a Begin is still held, and Run as
   * written stops without ever launching it.
   */
  lemma HeldBeginIsLost(b1: Request, c1: Request, b2: Request)
    requires b1.operationType == Requests.Begin && c1.operationType == Requests.Commit
    requires b2.operationType == Requests.Begin && c1.sessionId == b1.sessionId
    ensures var l := LaunchSpec([b1, c1, b2], None, [SlotView(false, 0, [])]);
            !l.crashed && l.queue == [] && l.current == Some(b2)
            && l.view == [SlotView(true, b1.sessionId, [b1, c1])]
            && FinishedAsWritten(l.queue, 0) && !Drained(l.queue, l.current, 0)
  {
    var v0 := [SlotView(false, 0, [])];
    var v1 := [SlotView(true, b1.sessionId, [b1])];
    var v2 := [SlotView(true, b1.sessionId, [b1, c1])];
    assert [b1, c1, b2][1..] == [c1, b2];
    assert [c1, b2][1..] == [b2];
    assert [b2][1..] == [];
    assert Active(v0) == 0 by { assert v0[1..] == []; }
    assert FirstFree(v0, 0) == Some(0);
    assert v0[0 := SlotView(true, b1.sessionId, [b1])] == v1;
    assert FirstSession(v1, c1.sessionId, 0) == Some(0);
    assert [b1] + [c1] == [b1, c1];
    assert WithQueue(v1, 0, v1[0].queue + [c1]) == v2;
    assert Active(v2) == 1 by { assert v2[1..] == []; }
    assert LaunchSpec([b2], None, v2) == LaunchSpec([], Some(b2), v2);
    assert LaunchSpec([c1, b2], None, v1) == LaunchSpec([b2], None, v2);
    assert LaunchSpec([b1, c1, b2], None, v0) == LaunchSpec([c1, b2], None, v1);
  }

  /**
   * One request read by LaunchRequests, placed into b as PlaceSpec says:
   * held is whether it must wait for a free slot; a throw crashes b.
   */
  method Place(b: TransactionExecutor, r: Request, now: int) returns (held: bool)
    requires b.Valid() && !b.crashed && r in b.served
    modifies b.Repr
    ensures b.Valid() && b.served == old(b.served)
    ensures b.commitCount == old(b.commitCount) && b.abortCount == old(b.abortCount)
    ensures held ==> !b.crashed && b.view == old(b.view) && PlaceSpec(r, old(b.view)) == Wait
    ensures !held && b.crashed ==> b.view == old(b.view) && PlaceSpec(r, old(b.view)) == Threw
    ensures !held && !b.crashed ==> PlaceSpec(r, old(b.view)) == Into(b.view)
  {
    held := false;
    ghost var v := b.view;
    if r.operationType == Requests.Begin {
      if b.active >= b.count {
        return true;
      }
      b.FreeSlotExists(0);
      var j := b.FindFree(0);
      if j.None? {
        assert false;
      }
      FirstFreeIs(v, 0, j.value);
      b.Take(j.value, r.sessionId, now);
      ghost var taken := b.view;
      assert taken[j.value].queue + [r] == [r];
      b.Push(j.value, r);
      assert b.view == WithQueue(taken, j.value, [r]);
      assert b.view == v[j.value := SlotView(true, r.sessionId, [r])];
    } else {
      var j := b.FindSession(r.sessionId);
      if j.None? {
        FirstSessionNone(v, r.sessionId, 0);
        b.Throw();
        return;
      }
      FirstSessionIs(v, r.sessionId, 0, j.value);
      b.Push(j.value, r);
    }
  }

  class RuntimeExecutor {
    const base: TransactionExecutor
    const capacity: nat
    /** request_queue_pool_: the requests written and not yet read, oldest first. */
    var queue: seq<Request>
    /** current_request_: a request read but not yet placed. */
    var current: Option<Request>
    ghost const Repr: set<object>

    ghost predicate Valid()
      reads this, Repr
    {
      Repr == {this, base} + base.Repr && this !in base.Repr && base.Valid()
      && |queue| <= capacity
      && (forall i :: 0 <= i < |queue| ==> queue[i] in base.served)
      && (current.Some? ==> current.value in base.served)
    }

    /**
     * RuntimeTransactionExecutor(...): concurrent_txn_count free slots, an
     * empty queue of the given capacity, and no request held.
     */
    constructor(id: int, n: nat, clk: LocalTimeProvider, gen: SimpleTxnIdGenerator, txLog: bool, logEnabled: bool,
                cap: nat)
      requires clk.Valid() && gen.Valid()
      ensures Valid() && fresh(Repr - {clk, gen})
      ensures base.count == n && capacity == cap && queue == [] && current == None
      ensures base.active == 0 && !base.crashed && forall k :: 0 <= k < n ==> base.view[k] == SlotView(false, 0, [])
    {
      var b := new TransactionExecutor(id, n, clk, gen, txLog, logEnabled, false);
      base := b;
      capacity := cap;
      queue := [];
      current := None;
      Repr := {this, b} + b.Repr;
    }

    /**
     * AddRequest(request): the queue's non-blocking write. A full queue
     * refuses the request, and the refusal is ignored: the request is
     * dropped.
     */
    method AddRequest(r: Request)
      requires Valid()
      modifies this, base
      ensures Valid() && current == old(current)
      ensures |old(queue)| < capacity ==> queue == old(queue) + [r]
      ensures |old(queue)| >= capacity ==> queue == old(queue)
      ensures base.view == old(base.view) && base.active == old(base.active) && base.crashed == old(base.crashed)
      ensures base.commitCount == old(base.commitCount) && base.abortCount == old(base.abortCount)
    {
      if |queue| < capacity {
        base.Admit(r);
        queue := queue + [r];
      }
    }

    /** IsFinished(), with the held request taken into account. */
    predicate IsFinished()
      reads this, base
    {
      Drained(queue, current, base.active)
    }

    /**
     * Finished means idle, and only that: nothing queued, no request held,
     * and no transaction in any slot. Unlike the source's IsFinished, a
     * held Begin keeps the executor unfinished.
     */
    lemma FinishedIsIdle()
      requires Valid()
      ensures IsFinished() <==> queue == [] && current == None && forall i :: 0 <= i < base.count ==> !base.tasks[i].inUse
    {
      base.IdleSlots();
    }

    /**
     * LaunchRequests(): reads requests until the queue is empty or a Begin
     * finds no free slot; each one read is placed as LaunchSpec says. The
     * "no empty txn task" throw cannot happen: a Begin is placed only when
     * fewer slots than all are in use. The "not found suitable transaction"
     * throw cannot happen either: every placed request has a slot.
     */
    method LaunchRequests(now: int)
      requires Valid() && !base.crashed
      modifies Repr
      ensures Valid() && base.served == old(base.served)
      ensures var l := LaunchSpec(old(queue), old(current), old(base.view));
              queue == l.queue && current == l.current && base.view == l.view && base.crashed == l.crashed
      ensures base.commitCount == old(base.commitCount) && base.abortCount == old(base.abortCount)
    {
      ghost var l0 := LaunchSpec(queue, current, base.view);
      while true
        invariant Valid() && !base.crashed && base.served == old(base.served)
        invariant base.commitCount == old(base.commitCount) && base.abortCount == old(base.abortCount)
        invariant LaunchSpec(queue, current, base.view) == l0
        decreases |queue|, if current.Some? then 1 else 0
      {
        if current.None? {
          if queue == [] {
            break;
          }
          current := Some(queue[0]);
          queue := queue[1..];
        }
        var held := Place(base, current.value, now);
        if held || base.crashed {
          return;
        }
        current := None;
      }
    }

    /**
     * Advance(): one sweep over the slots. Slots only go free; their
     * sessions and queues stay; the commit and abort counts grow by no
     * more than the slots freed.
     */
    method Advance(now: int)
      requires Valid() && !base.crashed
      modifies Repr, base.served
      ensures Valid() && queue == old(queue) && current == old(current)
      ensures base.served == old(base.served) && |base.view| == |old(base.view)|
      ensures base.active <= old(base.active)
      ensures forall k :: 0 <= k < |base.view| ==>
                (base.view[k].session == old(base.view[k].session) && base.view[k].queue == old(base.view[k].queue)
                 && (base.view[k].inUse ==> old(base.view[k].inUse)))
      ensures (base.commitCount - old(base.commitCount)) + (base.abortCount - old(base.abortCount))
              <= old(base.active) - base.active
    {
      var _ := base.Sweep(Runtime, now);
    }

    /**
     * Run(): while anything is queued, held or in flight, launch, advance
     * and let the handler send its batch; one round per pass. It stops
     * finished, crashed, or out of rounds. Its test includes the held
     * request, which the source's does not.
     */
    method Run(rounds: seq<Round>) returns (rest: seq<Round>)
      requires Valid() && !base.crashed
      modifies Repr, base.served
      ensures Valid() && |rest| <= |rounds| && rest == rounds[|rounds| - |rest|..]
      ensures base.crashed || rest == [] || IsFinished()
    {
      rest := rounds;
      while !Drained(queue, current, base.active) && rest != [] && !base.crashed
        invariant Valid() && |rest| <= |rounds| && rest == rounds[|rounds| - |rest|..]
        invariant base.served == old(base.served)
        decreases |rest|
      {
        var r := rest[0];
        LaunchRequests(r.now);
        if base.crashed {
          break;
        }
        Advance(r.now);
        if !base.crashed {
          base.DeliverAll(r.replies);
        }
        rest := rest[1..];
      }
    }
  }
}
