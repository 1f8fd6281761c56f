/**
 * What both executors share (include/transaction/transaction-executor.h and
 * the slot loops that both src/transaction/all-at-once-transaction-executor.cpp
 * and src/transaction/runtime-transaction-executor.cpp write out): the
 * vector of slots, the count of slots in use, the commit and abort
 * counters, the clock and the id generator every execution shares, and
 * the sweep over the slots. A throw out of an executor sets `crashed`.
 * The handler's answers arrive at SendBatch as a list of replies.
 */
module TransactionExecutors {
  import opened Wrappers
  import opened TxEntries
  import opened Operations
  import opened TimeProviders
  import opened TxnIdGenerators
  import opened Executions
  import opened TransactionRequests
  import opened TransactionTasks
  import opened ExecutorSteps
  import Requests

  /** An answer delivered at SendBatch: the slot, the operation that asked, and what it gets. */
  datatype Reply = Reply(slot: nat, op: Op, answer: HandlerSlot)

  /** One round: the wall-clock reading of its sweep and the replies at the SendBatch that ends it. */
  datatype Round = Round(now: int, replies: seq<Reply>)

  /** No reply among the first n after the j-th answers the same call of the same slot. */
  predicate LastAnswer(replies: seq<Reply>, j: nat, n: nat)
    requires j < n <= |replies|
  {
    forall m :: j < m < n ==> replies[m].slot != replies[j].slot || replies[m].op != replies[j].op
  }

  /** No reply among the first n answers call o of slot k. */
  predicate Unanswered(replies: seq<Reply>, n: nat, k: nat, o: Op)
    requires n <= |replies|
  {
    forall j :: 0 <= j < n ==> replies[j].slot != k || replies[j].op != o
  }

  /** What the executors see of a slot: taken or not, the session, and the requests pushed onto it. */
  datatype SlotView = SlotView(inUse: bool, session: int, queue: seq<Requests.OperationRequest>)

  /** The view with slot j's queue replaced. */
  function WithQueue(v: seq<SlotView>, j: nat, q: seq<Requests.OperationRequest>): (w: seq<SlotView>)
    requires j < |v|
    ensures |w| == |v| && w[j].queue == q && w[j].inUse == v[j].inUse && w[j].session == v[j].session
    ensures forall k :: 0 <= k < |v| && k != j ==> w[k] == v[k]
  {
    v[j := v[j].(queue := q)]
  }

  /** Replacing a queue twice is replacing it once. */
  lemma WithQueueTwice(v: seq<SlotView>, j: nat, q1: seq<Requests.OperationRequest>, q2: seq<Requests.OperationRequest>)
    requires j < |v|
    ensures WithQueue(WithQueue(v, j, q1), j, q2) == WithQueue(v, j, q2)
  {
  }

  /** The number of slots in use. */
  function Active(v: seq<SlotView>): (n: nat)
    ensures n <= |v|
  {
    if v == [] then 0 else (if v[0].inUse then 1 else 0) + Active(v[1..])
  }

  /** Replacing one slot changes the count by what that slot was and becomes. */
  lemma {:induction false} ActiveUpdate(v: seq<SlotView>, i: nat, s: SlotView)
    requires i < |v|
    ensures Active(v[i := s]) == Active(v) - (if v[i].inUse then 1 else 0) + (if s.inUse then 1 else 0)
  {
    if i > 0 {
      assert v[i := s][1..] == v[1..][i - 1 := s];
      ActiveUpdate(v[1..], i - 1, s);
    } else {
      assert v[i := s][1..] == v[1..];
    }
  }

  /** Every slot in use: the count is the number of slots. */
  lemma {:induction false} ActiveAll(v: seq<SlotView>)
    requires forall i :: 0 <= i < |v| ==> v[i].inUse
    ensures Active(v) == |v|
  {
    if v != [] {
      ActiveAll(v[1..]);
    }
  }

  /** A slot in use: the count is positive. */
  lemma {:induction false} ActivePositive(v: seq<SlotView>, i: nat)
    requires i < |v| && v[i].inUse
    ensures Active(v) > 0
  {
    if i > 0 {
      ActivePositive(v[1..], i - 1);
    }
  }

  /** No slot in use: the count is zero. */
  lemma {:induction false} ActiveNone(v: seq<SlotView>)
    requires forall i :: 0 <= i < |v| ==> !v[i].inUse
    ensures Active(v) == 0
  {
    if v != [] {
      ActiveNone(v[1..]);
    }
  }

  /** The lowest free slot at or after k. */
  function FirstFree(v: seq<SlotView>, k: nat): (r: Option<nat>)
    decreases |v| - k
    ensures r.Some? ==> k <= r.value < |v| && !v[r.value].inUse
  {
    if k >= |v| then None
    else if !v[k].inUse then Some(k)
    else FirstFree(v, k + 1)
  }

  /** A free slot with only slots in use before it, from k on, is the one FirstFree finds. */
  lemma {:induction false} FirstFreeIs(v: seq<SlotView>, k: nat, j: nat)
    requires k <= j < |v| && !v[j].inUse
    requires forall m :: k <= m < j ==> v[m].inUse
    ensures FirstFree(v, k) == Some(j)
    decreases j - k
  {
    if k < j {
      FirstFreeIs(v, k + 1, j);
    }
  }

  /** A slot as the constructor leaves it: free, of session 0, over the shared clock and generator, holding no request. */
  ghost predicate FreshSlot(t: TransactionTask, clk: LocalTimeProvider, gen: SimpleTxnIdGenerator)
    reads t, t.Repr
  {
    t.Valid() && !t.inUse && t.sessionId == 0 && t.execution.clock == clk && t.execution.idGen == gen
    && t.execution.result.request == null && t.execution.currentRequest == null && t.requests.queue == []
    && clk !in t.Repr && gen !in t.Repr
    && (forall o :: o in t.Repr ==> !(o is Requests.OperationRequest) && !(o is TransactionExecutor))
  }

  /** One slot of the constructor's loop: a fresh execution and request queue in a fresh task. */
  method NewSlot(id: int, clk: LocalTimeProvider, gen: SimpleTxnIdGenerator, txLog: bool, logEnabled: bool)
    returns (t: TransactionTask)
    ensures fresh(t.Repr) && FreshSlot(t, clk, gen)
  {
    var e := new TransactionExecution(id, clk, gen, txLog, logEnabled);
    var q := new TransactionRequest();
    t := new TransactionTask(e, q);
  }

  /** The constructor's loop: n fresh slots with pairwise disjoint footprints, none holding a request. */
  method NewSlots(id: int, n: nat, clk: LocalTimeProvider, gen: SimpleTxnIdGenerator, txLog: bool, logEnabled: bool)
    returns (ts: seq<TransactionTask>, ghost rep: set<object>, ghost blank: seq<SlotView>)
    ensures |ts| == n && clk in rep && gen in rep && fresh(rep - {clk, gen})
    ensures |blank| == n && forall k :: 0 <= k < n ==> blank[k] == SlotView(false, 0, [])
    ensures forall o :: o in rep ==> !(o is Requests.OperationRequest)
    ensures forall k :: 0 <= k < n ==> ts[k] in rep && ts[k].Repr <= rep && FreshSlot(ts[k], clk, gen)
    ensures forall a, b :: 0 <= a < b < n ==> ts[a].Repr !! ts[b].Repr
  {
    ts := [];
    rep := {clk, gen};
    blank := [];
    var i := 0;
    while i < n
      invariant i <= n && |ts| == i && clk in rep && gen in rep && fresh(rep - {clk, gen})
      invariant |blank| == i && forall k :: 0 <= k < i ==> blank[k] == SlotView(false, 0, [])
      invariant forall o :: o in rep ==> !(o is Requests.OperationRequest)
      invariant forall k :: 0 <= k < i ==> ts[k] in rep && ts[k].Repr <= rep && FreshSlot(ts[k], clk, gen)
      invariant forall a, b :: 0 <= a < b < i ==> ts[a].Repr !! ts[b].Repr
    {
      var t := NewSlot(id, clk, gen, txLog, logEnabled);
      ts := ts + [t];
      rep := rep + t.Repr;
      blank := blank + [SlotView(false, 0, [])];
      i := i + 1;
    }
  }

  class TransactionExecutor {
    const executorId: int
    const count: nat
    const tasks: seq<TransactionTask>
    const clock: LocalTimeProvider
    const idGen: SimpleTxnIdGenerator
    const hasDriver: bool
    var active: int
    var commitCount: int
    var abortCount: int
    var crashed: bool
    /** Every request handed to the executor so far. */
    ghost var served: set<Requests.OperationRequest>
    /** The slots as the executors see them, in order. */
    ghost var view: seq<SlotView>
    ghost const Repr: set<object>

    /** Slot i: its own footprint inside the executor's, valid, over the shared clock and generator, seen as v[i]. */
    ghost predicate SlotOk(i: nat, reqs: set<Requests.OperationRequest>, v: seq<SlotView>)
      requires i < |tasks|
      reads tasks[i], tasks[i].Repr
    {
      this !in tasks[i].Repr && clock !in tasks[i].Repr && idGen !in tasks[i].Repr
      && tasks[i].Valid()
      && tasks[i].execution.clock == clock && tasks[i].execution.idGen == idGen
      && Owned(tasks[i], reqs)
      && i < |v| && v[i] == SlotView(tasks[i].inUse, tasks[i].sessionId, tasks[i].requests.queue)
    }

    ghost predicate Valid()
      reads this, Repr
    {
      this in Repr && clock in Repr && idGen in Repr && |tasks| == count && |view| == count
      && (forall i :: 0 <= i < |tasks| ==> tasks[i] in Repr && tasks[i].Repr <= Repr && SlotOk(i, served, view))
      && (forall i, j :: 0 <= i < j < |tasks| ==> tasks[i].Repr !! tasks[j].Repr)
      && (forall o :: o in Repr ==> !(o is Requests.OperationRequest))
      && clock.Valid() && idGen.Valid()
      && active == Active(view)
    }

    /**
     * Only slot j's footprint, the clock, the generator and the executor's
     * own fields changed, every other slot is seen as before, and slot j is
     * in order again: the executor is valid again.
     */
    twostate lemma SlotChanged(j: nat)
      requires old(Valid()) && j < count
      requires unchanged(Repr - tasks[j].Repr - {this, clock, idGen})
      requires old(served) <= served && |view| == count
      requires forall k :: 0 <= k < count && k != j ==> view[k] == old(view[k])
      requires SlotOk(j, served, view) && clock.Valid() && idGen.Valid() && active == Active(view)
      ensures Valid()
    {
      forall i | 0 <= i < count && i != j
        ensures SlotOk(i, served, view)
      {
        assert old(SlotOk(i, served, view));
        assert tasks[i].Repr !! tasks[j].Repr;
        assert unchanged(tasks[i].Repr);
      }
    }

    /** The view is what the slots hold. */
    lemma ViewMatch()
      requires Valid()
      ensures forall i :: 0 <= i < count ==>
                view[i] == SlotView(tasks[i].inUse, tasks[i].sessionId, tasks[i].requests.queue)
    {
      forall i | 0 <= i < count
        ensures view[i] == SlotView(tasks[i].inUse, tasks[i].sessionId, tasks[i].requests.queue)
      {
        assert SlotOk(i, served, view);
      }
    }

    /**
     * The constructor of either executor: n free slots, each with its own
     * execution over the shared clock and id generator; no slot active and
     * both counters at 0.
     */
    constructor(id: int, n: nat, clk: LocalTimeProvider, gen: SimpleTxnIdGenerator, txLog: bool, logEnabled: bool,
                driver: bool)
      requires clk.Valid() && gen.Valid()
      ensures Valid() && fresh(Repr - {clk, gen})
      ensures executorId == id && count == n && clock == clk && idGen == gen && hasDriver == driver
      ensures active == 0 && commitCount == 0 && abortCount == 0 && !crashed && served == {}
      ensures |view| == n && forall k :: 0 <= k < n ==> view[k] == SlotView(false, 0, [])
    {
      var ts, rep, blank := NewSlots(id, n, clk, gen, txLog, logEnabled);
      ActiveNone(blank);
      view := blank;
      executorId := id;
      count := n;
      tasks := ts;
      clock := clk;
      idGen := gen;
      hasDriver := driver;
      active := 0;
      commitCount := 0;
      abortCount := 0;
      crashed := false;
      served := {};
      Repr := rep + {this};
      new;
      forall k | 0 <= k < n
        ensures SlotOk(k, served, view)
      {
        assert FreshSlot(tasks[k], clk, gen);
      }
    }

    /** A throw out of the executor: it is crashed from here on, and nothing else changes. */
    method Throw()
      requires Valid()
      modifies this
      ensures Valid() && crashed && served == old(served) && view == old(view)
      ensures active == old(active) && commitCount == old(commitCount) && abortCount == old(abortCount)
    {
      crashed := true;
    }

    /** A request handed to the executor joins the ones its slots may hold. */
    ghost method Admit(r: Requests.OperationRequest)
      requires Valid()
      modifies this
      ensures Valid() && served == old(served) + {r} && view == old(view)
      ensures active == old(active) && commitCount == old(commitCount) && abortCount == old(abortCount)
      ensures crashed == old(crashed)
    {
      served := served + {r};
      forall i | 0 <= i < count
        ensures SlotOk(i, served, view)
      {
        assert old(SlotOk(i, served, view));
      }
    }

    /** Statistics(commit, abort). */
    method Statistics() returns (commit: int, abort: int)
      ensures commit == commitCount && abort == abortCount
    {
      commit := commitCount;
      abort := abortCount;
    }

    /** No slot is in use exactly when the active count is 0. */
    lemma IdleSlots()
      requires Valid()
      ensures active == 0 <==> forall i :: 0 <= i < count ==> !tasks[i].inUse
    {
      ViewMatch();
      if forall i :: 0 <= i < count ==> !tasks[i].inUse {
        ActiveNone(view);
      } else {
        var i :| 0 <= i < count && tasks[i].inUse;
        ActivePositive(view, i);
      }
    }

    /** With fewer active slots than slots, some slot at or after from is free when none before it is. */
    lemma FreeSlotExists(from: nat)
      requires Valid() && active < count
      requires forall k :: 0 <= k < from && k < count ==> view[k].inUse
      ensures exists k :: from <= k < count && !view[k].inUse
    {
      if forall k :: from <= k < count ==> view[k].inUse {
        ActiveAll(view);
      }
    }

    /** The lowest free slot at or after from, if there is one. */
    method FindFree(from: nat) returns (j: Option<nat>)
      requires Valid()
      ensures j.Some? ==> from <= j.value < count && !view[j.value].inUse
                          && forall k :: from <= k < j.value ==> view[k].inUse
      ensures j.None? ==> forall k :: from <= k < count ==> view[k].inUse
    {
      ViewMatch();
      var k := from;
      while k < count
        invariant from <= k
        invariant forall m :: from <= m < k && m < count ==> view[m].inUse
        decreases count - k
      {
        if !tasks[k].inUse {
          return Some(k);
        }
        k := k + 1;
      }
      j := None;
    }

    /** The lowest slot whose session id is s, in use or not, if there is one. */
    method FindSession(s: int) returns (j: Option<nat>)
      requires Valid()
      ensures j.Some? ==> j.value < count && view[j.value].session == s
                          && forall k :: 0 <= k < j.value ==> view[k].session != s
      ensures j.None? ==> forall k :: 0 <= k < count ==> view[k].session != s
    {
      ViewMatch();
      var k := 0;
      while k < count
        invariant forall m :: 0 <= m < k && m < count ==> view[m].session != s
        decreases count - k
      {
        if tasks[k].sessionId == s {
          return Some(k);
        }
        k := k + 1;
      }
      j := None;
    }

    /**
     * A slot taken by a session (TransactionTask::Reset): its execution
     * starts over, its queue is emptied, and the active count rises by one.
     * No other slot changes.
     */
    method Take(j: nat, session: int, now: int)
      requires Valid() && j < count && !view[j].inUse
      modifies Repr
      ensures Valid() && active == old(active) + 1
      ensures view == old(view)[j := SlotView(true, session, [])]
      ensures tasks[j].requests.current == 0
      ensures !tasks[j].execution.finished && tasks[j].execution.status == Ongoing
      ensures commitCount == old(commitCount) && abortCount == old(abortCount) && crashed == old(crashed)
      ensures served == old(served)
    {
      assert SlotOk(j, served, view);
      tasks[j].Reset(session, now);
      ActiveUpdate(view, j, SlotView(true, session, []));
      view := view[j := SlotView(true, session, [])];
      active := active + 1;
      SlotChanged(j);
    }

    /** PushRequest on slot j's queue; the request is one the executor was handed. */
    method Push(j: nat, r: Requests.OperationRequest)
      requires Valid() && j < count && r in served
      modifies Repr
      ensures Valid() && view == WithQueue(old(view), j, old(view[j].queue) + [r])
      ensures tasks[j].requests.current == old(tasks[j].requests.current)
      ensures active == old(active) && commitCount == old(commitCount) && abortCount == old(abortCount)
      ensures crashed == old(crashed) && served == old(served)
    {
      assert SlotOk(j, served, view);
      tasks[j].requests.PushRequest(r);
      ActiveUpdate(view, j, view[j].(queue := view[j].queue + [r]));
      view := WithQueue(view, j, view[j].queue + [r]);
      SlotChanged(j);
    }

    /**
     * One slot's turn in a sweep: a finished transaction is counted as
     * aborted or committed by its status, the slot is released and the
     * active count drops by one. A free slot is skipped.
     */
    method Visit(i: nat, d: Dispatcher, now: int) returns (finished: bool)
      requires Valid() && i < count
      modifies Repr, served
      ensures Valid() && served == old(served)
      ensures finished ==> old(view[i].inUse) && view == old(view)[i := old(view[i]).(inUse := false)]
                           && active == old(active) - 1 && crashed == old(crashed)
      ensures finished ==> var s := tasks[i].execution.status;
                           commitCount == old(commitCount) + (if s == Committed then 1 else 0)
                           && abortCount == old(abortCount) + (if s == Aborted then 1 else 0)
      ensures !finished ==> view == old(view) && active == old(active)
                            && commitCount == old(commitCount) && abortCount == old(abortCount)
      ensures !old(view[i].inUse) ==> !finished && crashed == old(crashed)
      ensures old(view[i].inUse) && !crashed ==> (finished <==> tasks[i].execution.finished)
      ensures forall k :: 0 <= k < count && k != i ==> tasks[k].execution.finished == old(tasks[k].execution.finished)
    {
      finished := false;
      assert SlotOk(i, served, view);
      ExecutionsApart();
      var c, _, done, _ := Turn(tasks[i], d, now, served);
      SlotChanged(i);
      if c {
        crashed := true;
        return;
      }
      if done {
        Retire(i);
        finished := true;
      }
    }

    /** A finished transaction's slot: counted by its status, released, and no longer active. */
    method Retire(i: nat)
      requires Valid() && i < count && view[i].inUse
      modifies this, tasks[i]
      ensures Valid() && served == old(served) && crashed == old(crashed)
      ensures view == old(view)[i := old(view[i]).(inUse := false)] && active == old(active) - 1
      ensures var s := tasks[i].execution.status;
              commitCount == old(commitCount) + (if s == Committed then 1 else 0)
              && abortCount == old(abortCount) + (if s == Aborted then 1 else 0)
    {
      var s := tasks[i].execution.status;
      if s == Aborted {
        abortCount := abortCount + 1;
      }
      if s == Committed {
        commitCount := commitCount + 1;
      }
      Free(i);
    }

    /** Release(): slot i is free again and the active count drops by one. */
    method Free(i: nat)
      requires Valid() && i < count && view[i].inUse
      modifies this, tasks[i]
      ensures Valid() && view == old(view)[i := old(view[i]).(inUse := false)] && active == old(active) - 1
      ensures served == old(served) && crashed == old(crashed)
      ensures commitCount == old(commitCount) && abortCount == old(abortCount)
      ensures tasks[i].execution.status == old(tasks[i].execution.status)
    {
      assert SlotOk(i, served, view);
      tasks[i].Release();
      ActiveUpdate(view, i, view[i].(inUse := false));
      view := view[i := view[i].(inUse := false)];
      active := active - 1;
      SlotChanged(i);
    }

    /**
     * A sweep over every slot in order; a throw ends it at once. It
     * reports whether some transaction finished, which is when the active
     * count dropped. No slot is taken, and sessions and queues stay. When
     * no throw ends it, a slot that was in use is free afterwards exactly
     * when its transaction has finished.
     */
    method Sweep(d: Dispatcher, now: int) returns (finishedOne: bool)
      requires Valid() && !crashed
      modifies Repr, served
      ensures Valid() && served == old(served) && |view| == |old(view)|
      ensures forall k :: 0 <= k < |view| ==>
                (view[k].session == old(view[k].session) && view[k].queue == old(view[k].queue)
                 && (view[k].inUse ==> old(view[k].inUse)))
      ensures active <= old(active) && (finishedOne <==> active < old(active))
      ensures commitCount >= old(commitCount) && abortCount >= old(abortCount)
      ensures (commitCount - old(commitCount)) + (abortCount - old(abortCount)) <= old(active) - active
      ensures !crashed ==>
                forall k :: 0 <= k < |view| && old(view[k].inUse) ==> (view[k].inUse <==> !tasks[k].execution.finished)
    {
      finishedOne := false;
      var i := 0;
      while i < count
        invariant Valid() && served == old(served) && i <= count && !crashed && |view| == |old(view)|
        invariant forall k :: 0 <= k < |view| ==>
                    (view[k].session == old(view[k].session) && view[k].queue == old(view[k].queue)
                     && (view[k].inUse ==> old(view[k].inUse)))
        invariant active <= old(active) && (finishedOne <==> active < old(active))
        invariant commitCount >= old(commitCount) && abortCount >= old(abortCount)
        invariant (commitCount - old(commitCount)) + (abortCount - old(abortCount)) <= old(active) - active
        invariant forall k :: 0 <= k < i && old(view[k].inUse) ==> (view[k].inUse <==> !tasks[k].execution.finished)
        invariant forall k :: i <= k < count ==> view[k] == old(view[k])
      {
        var f := Visit(i, d, now);
        if crashed {
          return;
        }
        finishedOne := finishedOne || f;
        i := i + 1;
      }
    }

    /** Different slots hold different executions. */
    lemma ExecutionsApart()
      requires Valid()
      ensures forall a, b :: 0 <= a < count && 0 <= b < count && a != b ==> tasks[a].execution != tasks[b].execution
    {
      forall a, b | 0 <= a < count && 0 <= b < count && a != b
        ensures tasks[a].execution != tasks[b].execution
      {
        assert SlotOk(a, served, view) && SlotOk(b, served, view);
        assert tasks[a].execution in tasks[a].Repr && tasks[b].execution in tasks[b].Repr;
        if a < b {
          assert tasks[a].Repr !! tasks[b].Repr;
        } else {
          assert tasks[b].Repr !! tasks[a].Repr;
        }
      }
    }

    /** The answer r carries is in the node of the call it answers, if that node exists. */
    ghost predicate Landed(r: Reply)
      requires r.slot < |tasks|
      reads tasks[r.slot].execution
    {
      var e := tasks[r.slot].execution;
      NodeAt(e.singles, e.children, r.op).Some? ==> e.Get(r.op).slot == r.answer
    }

    /**
     * SendBatch: the handler's answers reach the executions of the slots
     * they name, in order, so a call answered twice keeps the later answer.
     * A node no reply names is as it was, and so is everything else of
     * every execution and of the executor.
     */
    method DeliverAll(replies: seq<Reply>)
      requires Valid()
      modifies Repr
      ensures Valid() && served == old(served) && crashed == old(crashed) && view == old(view)
      ensures active == old(active) && commitCount == old(commitCount) && abortCount == old(abortCount)
      ensures forall j :: 0 <= j < |replies| && replies[j].slot < count && LastAnswer(replies, j, |replies|) ==>
                Landed(replies[j])
      ensures forall k, o :: 0 <= k < count && Unanswered(replies, |replies|, k, o) ==>
                NodeAt(tasks[k].execution.singles, tasks[k].execution.children, o)
                == NodeAt(old(tasks[k].execution.singles), old(tasks[k].execution.children), o)
      ensures forall k :: 0 <= k < count ==> tasks[k].execution.Settled()
    {
      var i := 0;
      while i < |replies|
        invariant Valid() && served == old(served) && crashed == old(crashed) && view == old(view) && i <= |replies|
        invariant active == old(active) && commitCount == old(commitCount) && abortCount == old(abortCount)
        invariant forall j :: 0 <= j < i && replies[j].slot < count && LastAnswer(replies, j, i) ==> Landed(replies[j])
        invariant forall k, o :: 0 <= k < count && Unanswered(replies, i, k, o) ==>
                    NodeAt(tasks[k].execution.singles, tasks[k].execution.children, o)
                    == NodeAt(old(tasks[k].execution.singles), old(tasks[k].execution.children), o)
        invariant forall k :: 0 <= k < count ==> tasks[k].execution.Settled()
      {
        DeliverNext(replies, i);
        i := i + 1;
      }
    }

    /**
     * The loop step of DeliverAll: reply i is delivered on top of the ones
     * before it. A later answer to a call replaces the earlier one, earlier
     * answers to other calls stay where they landed, and a call reply i
     * does not answer keeps its node.
     */
    method DeliverNext(replies: seq<Reply>, i: nat)
      requires Valid() && i < |replies|
      requires forall j :: 0 <= j < i && replies[j].slot < count && LastAnswer(replies, j, i) ==> Landed(replies[j])
      modifies Repr
      ensures Valid() && unchanged(this)
      ensures forall j :: 0 <= j <= i && replies[j].slot < count && LastAnswer(replies, j, i + 1) ==> Landed(replies[j])
      ensures forall k, o :: 0 <= k < count && Unanswered(replies, i + 1, k, o) ==>
                NodeAt(tasks[k].execution.singles, tasks[k].execution.children, o)
                == NodeAt(old(tasks[k].execution.singles), old(tasks[k].execution.children), o)
      ensures forall k :: 0 <= k < count ==> tasks[k].execution.Settled()
    {
      var r := replies[i];
      DeliverOne(r);
      forall j | 0 <= j < i && replies[j].slot < count && LastAnswer(replies, j, i + 1)
        ensures Landed(replies[j])
      {
        var q := replies[j];
        assert LastAnswer(replies, j, i) && old(Landed(q));
        if q.slot == r.slot {
          assert q.op != r.op;
          var e := tasks[q.slot].execution;
          assert NodeAt(e.singles, e.children, q.op) == old(NodeAt(e.singles, e.children, q.op));
        }
      }
      forall k, o | 0 <= k < count && Unanswered(replies, i + 1, k, o)
        ensures NodeAt(tasks[k].execution.singles, tasks[k].execution.children, o)
                == NodeAt(old(tasks[k].execution.singles), old(tasks[k].execution.children), o)
      {
        assert r.slot != k || r.op != o;
      }
    }

    /**
     * One answer: it reaches the execution of the slot it names, and every
     * other execution is as it was; a reply for no slot is dropped.
     */
    method DeliverOne(r: Reply)
      requires Valid()
      modifies if r.slot < count then {tasks[r.slot].execution} else {}
      ensures Valid() && unchanged(this)
      ensures r.slot < count ==> tasks[r.slot].execution.Answered(r.op, r.answer)
      ensures forall k :: 0 <= k < count && k != r.slot ==> unchanged(tasks[k].execution)
    {
      ExecutionsApart();
      if r.slot < count {
        assert SlotOk(r.slot, served, view);
        tasks[r.slot].execution.Deliver(r.op, r.answer);
        SlotChanged(r.slot);
      }
    }
  }
}
