/**
 * One slot's turn in an executor's sweep, which both executors write out
 * in the same way (src/transaction/all-at-once-transaction-executor.cpp,
 * src/transaction/runtime-transaction-executor.cpp): the execution moves
 * forward; an idle, unfinished execution is handed the slot's next request;
 * a finished one is reported. The two copies differ only in how they serve
 * ReadDataStore and in which Read cases rebind the request's result.
 */
module ExecutorSteps {
  import opened Wrappers
  import opened Keys
  import opened TxEntries
  import opened Operations
  import opened Executions
  import opened TransactionTasks
  import opened TransactionRequests
  import Requests

  /** Which executor's copy of the request switch runs. */
  datatype Dispatcher =
    | AllAtOnce(hasDriver: bool)  // hasDriver: a data-store driver is configured
    | Runtime

  /** The operation a request pushes onto the execution's stack, if any. */
  function Entered(t: Requests.OperationType, d: Dispatcher, needToRead: bool): Option<Kind> {
    match t
    case Begin => Some(InitTxn)
    case Insert => Some(Kind.Insert)
    case Update => Some(Kind.Update)
    case Upsert => Some(Kind.Upsert)
    case Delete => Some(Kind.Delete)
    case Read => Some(ReadOutside)
    case ReadOutside => Some(ReadOutside)
    case ReadDataStore => if d == AllAtOnce(true) && needToRead then Some(Kind.ReadDataStore) else None
    case Commit => Some(Upload)
    case Abort => Some(UpdateTxnStatusToAbort)
  }

  /**
   * The request types whose key is passed on to an operation. A request of
   * one of these types without a key has no defined outcome in the source
   * (the null key reaches the handler, the driver or a later dereference);
   * the model does not carry a missing key into the execution.
   */
  predicate UsesKey(t: Requests.OperationType, d: Dispatcher, needToRead: bool) {
    t in {Requests.Insert, Requests.Update, Requests.Upsert, Requests.Delete, Requests.Read, Requests.ReadOutside}
    || (t == Requests.ReadDataStore && d == AllAtOnce(true) && needToRead)
  }

  /** The request types after which the execution's result is bound to the request. */
  predicate Answered(t: Requests.OperationType, d: Dispatcher) {
    t != Requests.ReadDataStore || d.AllAtOnce?
  }

  /** The cases in which the executor also calls SetResult on the request. */
  predicate Rebound(t: Requests.OperationType, d: Dispatcher) {
    d.AllAtOnce? && t in {Requests.Read, Requests.ReadOutside, Requests.ReadDataStore}
  }

  /** The key passed on; when nothing is read it is never looked at. */
  function KeyOrUnused(k: Option<Key>): Key {
    if k.Some? then k.value else IntKey(0)
  }

  /**
   * What serving a request of type t does to the stack: Abort leaves only
   * UpdateTxnStatusToAbort; otherwise the entered operation, if any, sits
   * right above the stack as it was.
   */
  predicate EnteredOnto(before: seq<Option<Op>>, after: seq<Option<Op>>, t: Requests.OperationType,
                        d: Dispatcher, needToRead: bool)
  {
    if t == Requests.Abort then after == [Some(Single(UpdateTxnStatusToAbort))]
    else match Entered(t, d, needToRead)
      case Some(k) => |after| > |before| && after[..|before|] == before && after[|before|] == Some(Single(k))
      case None => after == before
  }

  /**
   * The request switch: the processor is set up, the request becomes the
   * execution's current one, and the execution entry point for its type
   * runs. A request that needs a key and has none is made a crash here
   * (ok false), which stops the switch.
   */
  method Dispatch(e: TransactionExecution, r: Requests.OperationRequest, d: Dispatcher) returns (ok: bool)
    requires e.Valid()
    modifies e.Repr, r
    ensures e.Valid() && e.currentRequest == r
    ensures ok <==> !(r.key.None? && UsesKey(r.operationType, d, r.needToReadOutside))
    ensures e.finished == old(e.finished) && e.status == old(e.status) && e.fatal == old(e.fatal)
    ensures !ok ==> e.stack == old(e.stack) && e.result.request == old(e.result.request)
    ensures ok ==> EnteredOnto(old(e.stack), e.stack, r.operationType, d, r.needToReadOutside)
    ensures ok && Answered(r.operationType, d) ==> e.result.request == r
    ensures e.result.request == old(e.result.request) || e.result.request == r
    ensures ok && Rebound(r.operationType, d) ==> r.result == e.result
  {
    r.SetUp();
    e.SetCurrentRequest(r);
    ok := !(r.key.None? && UsesKey(r.operationType, d, r.needToReadOutside));
    if !ok {
      return;
    }
    if r.operationType in {Requests.Begin, Requests.Commit, Requests.Abort} {
      DispatchControl(e, r, d);
    } else if r.operationType == Requests.ReadDataStore {
      DispatchReadDataStore(e, r, d);
    } else if r.operationType in {Requests.Read, Requests.ReadOutside} {
      DispatchRead(e, r, d);
    } else {
      DispatchWrite(e, r, d);
    }
  }

  /** Begin, Commit and Abort: the execution's own entry points, with no key. */
  method DispatchControl(e: TransactionExecution, r: Requests.OperationRequest, d: Dispatcher)
    requires e.Valid() && e.currentRequest == r
    requires r.operationType in {Requests.Begin, Requests.Commit, Requests.Abort}
    modifies e.Repr, r
    ensures e.Valid() && e.currentRequest == r
    ensures e.finished == old(e.finished) && e.status == old(e.status) && e.fatal == old(e.fatal)
    ensures EnteredOnto(old(e.stack), e.stack, r.operationType, d, r.needToReadOutside)
    ensures e.result.request == r
  {
    match r.operationType
    case Begin =>
      e.Begin(r.typeArg);
    case Commit =>
      e.Commit();
    case Abort =>
      e.Abort();
  }

  /** The writes: Insert, Update, Upsert and Delete. */
  method DispatchWrite(e: TransactionExecution, r: Requests.OperationRequest, d: Dispatcher)
    requires e.Valid() && e.currentRequest == r && r.key.Some?
    requires r.operationType in {Requests.Insert, Requests.Update, Requests.Upsert, Requests.Delete}
    modifies e.Repr, r
    ensures e.Valid() && e.currentRequest == r
    ensures e.finished == old(e.finished) && e.status == old(e.status) && e.fatal == old(e.fatal)
    ensures EnteredOnto(old(e.stack), e.stack, r.operationType, d, r.needToReadOutside)
    ensures e.result.request == r
  {
    match r.operationType
    case Insert =>
      e.InsertOrUpsert(Kind.Insert, r.tableName, r.key.value, r.record);
    case Update =>
      e.Update(r.tableName, r.key.value, r.record);
    case Upsert =>
      e.InsertOrUpsert(Kind.Upsert, r.tableName, r.key.value, r.record);
    case Delete =>
      e.Delete(r.tableName, r.key.value);
  }

  /**
   * Read and ReadOutside: both run the read outside without keeping deleted
   * versions; the all-at-once executor then hands the request the result.
   */
  method DispatchRead(e: TransactionExecution, r: Requests.OperationRequest, d: Dispatcher)
    requires e.Valid() && e.currentRequest == r && r.key.Some?
    requires r.operationType in {Requests.Read, Requests.ReadOutside}
    modifies e.Repr, r
    ensures e.Valid() && e.currentRequest == r
    ensures e.finished == old(e.finished) && e.status == old(e.status) && e.fatal == old(e.fatal)
    ensures EnteredOnto(old(e.stack), e.stack, r.operationType, d, r.needToReadOutside)
    ensures e.result.request == r
    ensures Rebound(r.operationType, d) ==> r.result == e.result
  {
    e.Read(r.tableName, r.key.value, r.record, false);
    if d.AllAtOnce? {
      r.SetResult(e.result);
    }
  }

  /**
   * ReadDataStore: with a driver the execution reads the data store; without
   * one the all-at-once executor binds the result to the request's own
   * record; the runtime executor has no case for it.
   */
  method DispatchReadDataStore(e: TransactionExecution, r: Requests.OperationRequest, d: Dispatcher)
    requires e.Valid() && e.currentRequest == r && r.operationType == Requests.ReadDataStore
    requires r.key.None? ==> !UsesKey(r.operationType, d, r.needToReadOutside)
    modifies e.Repr, r
    ensures e.Valid() && e.currentRequest == r
    ensures e.finished == old(e.finished) && e.status == old(e.status) && e.fatal == old(e.fatal)
    ensures EnteredOnto(old(e.stack), e.stack, r.operationType, d, r.needToReadOutside)
    ensures d == AllAtOnce(true) && !r.needToReadOutside ==> r.finished
    ensures d == AllAtOnce(false) ==> e.result.State() == Requests.FreshResultState(old(r.record))
    ensures d.Runtime? ==> e.result.request == old(e.result.request)
    ensures d.AllAtOnce? ==> e.result.request == r && r.result == e.result
  {
    match d
    case Runtime =>
    case AllAtOnce(driver) =>
      if driver {
        e.ReadDataStore(r.tableName, KeyOrUnused(r.key), r.record, r.needToReadOutside);
      } else {
        e.result.Reset(r.record, r);
      }
      r.SetResult(e.result);
  }

  /** The requests a slot can reach are among the executor's. */
  ghost predicate Owned(task: TransactionTask, reqs: set<Requests.OperationRequest>)
    reads task, task.execution, task.execution.result, task.requests
  {
    (task.execution.result.request != null ==> task.execution.result.request in reqs)
    && (task.execution.currentRequest != null ==> task.execution.currentRequest in reqs)
    && (forall q :: q in task.requests.queue ==> q in reqs)
  }

  /**
   * A slot's turn. A free slot is skipped. Otherwise the execution moves
   * forward; a Recover inside it, or a missing key, is a crash; an idle,
   * unfinished execution takes the next request of the slot, if there is
   * one; and the turn reports whether the transaction is finished.
   */
  method Turn(task: TransactionTask, d: Dispatcher, now: int, ghost reqs: set<Requests.OperationRequest>)
    returns (crashed: bool, served: bool, done: bool, ghost idle: bool)
    requires task.Valid() && task.execution.clock.Valid() && task.execution.idGen.Valid()
    requires Owned(task, reqs)
    modifies task.requests, task.execution.Repr, task.execution.clock, task.execution.idGen, reqs
    ensures task.Valid() && task.execution.clock.Valid() && task.execution.idGen.Valid()
    ensures Owned(task, reqs)
    ensures !task.inUse ==> !crashed && !served && !done
    ensures !task.inUse ==> unchanged(task.requests, task.execution)
    ensures task.requests.queue == old(task.requests.queue)
    ensures served ==> old(task.requests.current) < |task.requests.queue|
                       && task.requests.current == old(task.requests.current) + 1
                       && task.execution.currentRequest == task.requests.queue[old(task.requests.current)]
                       && !task.execution.finished
    ensures !served ==> task.requests.current == old(task.requests.current)
    ensures crashed ==> task.inUse
    ensures done <==> task.inUse && !crashed && task.execution.finished
    ensures task.inUse && !crashed ==>
              (served <==> idle && !task.execution.finished && old(task.requests.current) < |task.requests.queue|)
    ensures task.inUse && !crashed && !served ==> (idle <==> task.execution.stack == [])
  {
    crashed, served, done, idle := false, false, false, false;
    if !task.inUse {
      return;
    }
    var e := task.execution;
    var quiet, _, _ := e.MoveForward(now);
    idle := quiet;
    if e.fatal {
      crashed := true;
      return;
    }
    if quiet && !e.finished {
      crashed, served := TakeNext(task, d, reqs);
      if crashed {
        return;
      }
    }
    done := e.finished;
  }

  /**
   * The branch of a turn for an idle, unfinished execution: the slot's next
   * request, if there is one, is dispatched; the stack then holds what it
   * entered.
   */
  method TakeNext(task: TransactionTask, d: Dispatcher, ghost reqs: set<Requests.OperationRequest>) returns (crashed: bool, served: bool)
    requires task.Valid() && Owned(task, reqs)
    requires task.execution.stack == [] && !task.execution.finished
    modifies task.requests, task.execution.Repr, reqs
    ensures task.Valid() && Owned(task, reqs)
    ensures task.requests.queue == old(task.requests.queue)
    ensures task.execution.finished == old(task.execution.finished) && task.execution.fatal == old(task.execution.fatal)
    ensures served <==> old(task.requests.current) < |task.requests.queue|
    ensures served ==> task.requests.current == old(task.requests.current) + 1
                       && task.execution.currentRequest == task.requests.queue[old(task.requests.current)]
    ensures served && !crashed ==>
              var r := task.execution.currentRequest;
              EnteredOnto([], task.execution.stack, r.operationType, d, r.needToReadOutside)
    ensures crashed <==> served && task.execution.currentRequest.key.None?
                         && UsesKey(task.execution.currentRequest.operationType, d, task.execution.currentRequest.needToReadOutside)
    ensures !served ==> task.requests.current == old(task.requests.current) && task.execution.stack == []
  {
    crashed, served := false, false;
    var r := task.requests.CurrentRequest();
    if r != null {
      served := true;
      var ok := Dispatch(task.execution, r, d);
      crashed := !ok;
    }
  }
}
