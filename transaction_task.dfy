/**
 * A slot of an executor (include/transaction/transaction-task.h): an
 * execution, its request queue, whether the slot is taken and by which
 * session.
 */
module TransactionTasks {
  import opened TimeProviders
  import opened TxnIdGenerators
  import opened Executions
  import opened TransactionRequests
  import opened TxEntries

  class TransactionTask {
    const execution: TransactionExecution
    const requests: TransactionRequest
    var inUse: bool
    var sessionId: int
    ghost const Repr: set<object>

    ghost predicate Valid()
      reads this, Repr
    {
      Repr == {this, requests, execution} + execution.Repr
      && this !in execution.Repr && requests !in execution.Repr
      && execution.Valid() && requests.Valid()
    }

    /** TransactionTask(execution, request): a free slot of session 0. */
    constructor(e: TransactionExecution, q: TransactionRequest)
      requires e.Valid() && q.Valid() && q !in e.Repr
      ensures Valid() && execution == e && requests == q
      ensures !inUse && sessionId == 0
      ensures Repr == {this, q, e} + e.Repr
    {
      execution := e;
      requests := q;
      inUse := false;
      sessionId := 0;
      Repr := {this, q, e} + e.Repr;
    }

    /** InUse(). */
    function InUse(): bool
      reads this
    {
      inUse
    }

    /** GetSessionID(). */
    function GetSessionID(): int
      reads this
    {
      sessionId
    }

    /**
     * Reset(session_id): the execution starts a new transaction (its pools
     * emptied, no commit timestamps, a new id, a fresh local timestamp and
     * tx entry), the request queue is emptied, and the slot is taken by the
     * session.
     */
    method Reset(s: int, now: int)
      requires Valid() && execution.clock.Valid() && execution.idGen.Valid()
      modifies this, requests, execution, execution.localState.readSet, execution.localState.writeSet
      modifies execution.clock, execution.idGen
      ensures Valid() && execution.clock.Valid() && execution.idGen.Valid()
      ensures inUse && sessionId == s
      ensures requests.queue == [] && requests.current == 0
      ensures execution.currentRequest == null && !execution.finished && execution.status == Ongoing
      ensures execution.stack == old(execution.stack) && execution.result.request == old(execution.result.request)
      ensures execution.NodesKept() && execution.issued == old(execution.issued)
      ensures execution.localState.readSet.popIndex == 0 && execution.localState.writeSet.popIndex == 0
      ensures execution.localState.readSet.slots == old(execution.localState.readSet.slots)
      ensures execution.localState.writeSet.slots == old(execution.localState.writeSet.slots)
      ensures (execution.commitTsLocal, execution.clock.State()) == GetTimeStep(old(execution.clock.State()), now)
      ensures execution.State() == old(execution.State()).(finished := false, status := Ongoing, commitTs := -1, maxWritersTs := -1,
                                                           txnId := execution.txnId, commitTsLocal := execution.commitTsLocal,
                                                           txnEntry := TxEntries.Reset(execution.txnId, execution.commitTsLocal))
      ensures execution.txnId == execution.idGen.id
      ensures execution.txnId == execution.idGen.start + Step(execution.idGen.end - execution.idGen.start,
                                                                old(execution.idGen.id) - execution.idGen.start)
    {
      execution.Reset(now);
      requests.Reset();
      inUse := true;
      sessionId := s;
    }

    /** Release(): the slot is free again; everything else stays. */
    method Release()
      modifies this
      ensures !inUse && sessionId == old(sessionId)
    {
      inUse := false;
    }
  }
}
