/**
 * What a client hands to an executor and what it reads back
 * (include/transaction/result.h, src/transaction/result.cpp,
 * include/transaction/operation-request.h, src/transaction/operation-request.cpp).
 * A Result and the OperationRequest it is bound to point at each other, so
 * both classes live in this module.
 */
module Requests {
  import opened Wrappers
  import opened Bytes
  import opened Keys
  import opened Records
  import opened TxEntries

  /** OperationType. */
  datatype OperationType = Begin | Insert | Update | Upsert | Delete | Read | ReadOutside | ReadDataStore | Commit | Abort

  /** Commit and Abort close a session's run of requests. */
  predicate EndsSession(t: OperationType) {
    t == Commit || t == Abort
  }

  /** The fields of a Result other than its request pointer. */
  datatype ResultState = ResultState(record: Option<Record>, isDeleted: bool, isNull: bool, isError: bool, status: TxnStatus)

  /** The state both Reset overloads leave behind, given the record they store. */
  function FreshResultState(record: Option<Record>): (s: ResultState)
    ensures !s.isDeleted && !s.isNull && !s.isError && s.status == Ongoing && s.record == record
  {
    ResultState(record, false, false, false, Ongoing)
  }

  /**
   * Result. The record is a value: adopting a pointer and copying a record's
   * contents both leave the result holding that record.
   */
  class Result {
    var record: Option<Record>
    var request: OperationRequest?
    var isDeleted: bool
    var isNull: bool
    var isError: bool
    var status: TxnStatus

    function State(): ResultState
      reads this
    {
      ResultState(record, isDeleted, isNull, isError, status)
    }

    /** Result(): a null record, every flag clear, status Ongoing, no request. */
    constructor()
      ensures State() == FreshResultState(None) && request == null
    {
      record := None;
      isDeleted := false;
      isNull := false;
      isError := false;
      request := null;
      status := Ongoing;
    }

    /** SetFinished(): notifies the bound request, and nothing else. */
    method SetFinished()
      requires request != null
      modifies request
      ensures request.finished
      ensures request.result == old(request.result) && request.dependents == old(request.dependents)
      ensures request.processorRuns == old(request.processorRuns)
    {
      request.Notify();
    }

    /** Reset(record, req): the flags cleared, the record stored, and req bound to this result. */
    method Reset(rec: Option<Record>, req: OperationRequest)
      modifies this, req
      ensures State() == FreshResultState(rec) && request == req && req.result == this
      ensures req.finished == old(req.finished) && req.dependents == old(req.dependents)
      ensures req.processorRuns == old(req.processorRuns)
    {
      record := rec;
      isDeleted := false;
      isNull := false;
      isError := false;
      status := Ongoing;
      request := req;
      req.SetResult(this);
    }

    /** Reset(req): as Reset(record, req) with a null record. */
    method ResetWithoutRecord(req: OperationRequest)
      modifies this, req
      ensures State() == FreshResultState(None) && request == req && req.result == this
      ensures req.finished == old(req.finished) && req.dependents == old(req.dependents)
      ensures req.processorRuns == old(req.processorRuns)
    {
      Reset(None, req);
    }

    /** SetRecord(record): the result holds the record, then finishes. */
    method SetRecord(rec: Option<Record>)
      requires request != null
      modifies this, request
      ensures State() == old(State()).(record := rec) && request == old(request)
      ensures request.finished && request.result == old(request.result)
      ensures request.dependents == old(request.dependents) && request.processorRuns == old(request.processorRuns)
    {
      if record.None? {
        record := rec;
      } else if rec.Some? && Records.SameKind(record.value, rec.value) {
        var copied := Records.CopyFrom(record.value, rec.value);
        record := Some(copied.1);
      } else {
        record := rec;
      }
      SetFinished();
    }

    /** SetNull(): only is_null_ is set, then the result finishes. */
    method SetNull()
      requires request != null
      modifies this, request
      ensures State() == old(State()).(isNull := true) && request == old(request)
      ensures request.finished && request.result == old(request.result)
      ensures request.dependents == old(request.dependents) && request.processorRuns == old(request.processorRuns)
    {
      isNull := true;
      SetFinished();
    }

    /** SetDeleted(): only is_deleted_ is set, then the result finishes. */
    method SetDeleted()
      requires request != null
      modifies this, request
      ensures State() == old(State()).(isDeleted := true) && request == old(request)
      ensures request.finished && request.result == old(request.result)
      ensures request.dependents == old(request.dependents) && request.processorRuns == old(request.processorRuns)
    {
      isDeleted := true;
      SetFinished();
    }

    /** SetError(): only is_error_ is set, then the result finishes. */
    method SetError()
      requires request != null
      modifies this, request
      ensures State() == old(State()).(isError := true) && request == old(request)
      ensures request.finished && request.result == old(request.result)
      ensures request.dependents == old(request.dependents) && request.processorRuns == old(request.processorRuns)
    {
      isError := true;
      SetFinished();
    }

    /** SetStatus(status): the status is stored, then the result finishes. */
    method SetStatus(s: TxnStatus)
      requires request != null
      modifies this, request
      ensures State() == old(State()).(status := s) && request == old(request)
      ensures IsCommitted() <==> s == Committed
      ensures IsAbort() <==> s == Aborted
      ensures !(IsCommitted() && IsAbort())
      ensures request.finished && request.result == old(request.result)
      ensures request.dependents == old(request.dependents) && request.processorRuns == old(request.processorRuns)
    {
      status := s;
      SetFinished();
    }

    function IsDeleted(): bool reads this { isDeleted }
    function IsNull(): bool reads this { isNull }
    function IsError(): bool reads this { isError }
    function GetRecord(): Option<Record> reads this { record }

    function IsCommitted(): bool reads this { status == Committed }
    function IsAbort(): bool reads this { status == Aborted }
  }

  /**
   * OperationRequest. The request processor is external code: the model
   * records only whether one is present and how often it ran.
   */
  class OperationRequest {
    const sessionId: int
    const tableName: Text
    const key: Option<Key>
    const operationType: OperationType
    const hasProcessor: bool
    const needToReadOutside: bool
    const cache: Result
    var typeArg: int
    var record: Option<Record>
    var result: Result?
    var dependents: seq<OperationRequest>
    var processorRuns: nat
    var finished: bool

    /** The full constructor: no result bound, not finished, a fresh cache. */
    constructor(session: int, table: Text, k: Key, rec: Option<Record>, t: OperationType,
                processor: bool, readOutside: bool := false)
      ensures sessionId == session && tableName == table && key == Some(k) && record == rec
      ensures operationType == t && hasProcessor == processor && needToReadOutside == readOutside
      ensures result == null && !finished && dependents == [] && processorRuns == 0 && typeArg == 0
      ensures fresh(cache) && cache.State() == FreshResultState(None) && cache.request == null
    {
      sessionId := session;
      tableName := table;
      key := Some(k);
      record := rec;
      operationType := t;
      hasProcessor := processor;
      needToReadOutside := readOutside;
      cache := new Result();
      typeArg := 0;
      result := null;
      dependents := [];
      processorRuns := 0;
      finished := false;
    }

    /** OperationRequest(session_id, type): a control request with no table, key or record. */
    constructor Control(session: int, t: OperationType)
      ensures sessionId == session && operationType == t && key == None && record == None && tableName == []
      ensures !hasProcessor && result == null && !finished && dependents == [] && processorRuns == 0
      ensures fresh(cache) && cache.State() == FreshResultState(None) && cache.request == null
    {
      sessionId := session;
      tableName := [];
      key := None;
      record := None;
      operationType := t;
      hasProcessor := false;
      needToReadOutside := false;
      cache := new Result();
      typeArg := 0;
      result := null;
      dependents := [];
      processorRuns := 0;
      finished := false;
    }

    /** SetResult(result): GetResult returns it from now on. */
    method SetResult(r: Result)
      modifies this
      ensures result == r && GetResult() == r
      ensures finished == old(finished) && dependents == old(dependents) && processorRuns == old(processorRuns)
      ensures record == old(record) && typeArg == old(typeArg)
    {
      result := r;
    }

    function GetResult(): Result?
      reads this
    {
      result
    }

    /** AddDependentRequest(request): appended at the end. */
    method AddDependentRequest(r: OperationRequest)
      modifies this
      ensures dependents == old(dependents) + [r]
      ensures result == old(result) && finished == old(finished) && processorRuns == old(processorRuns)
      ensures record == old(record) && typeArg == old(typeArg)
    {
      dependents := dependents + [r];
    }

    /** SetUp(): the processor runs once exactly when one is present. */
    method SetUp()
      modifies this
      ensures processorRuns == old(processorRuns) + (if hasProcessor then 1 else 0)
      ensures result == old(result) && finished == old(finished) && dependents == old(dependents)
      ensures record == old(record) && typeArg == old(typeArg)
    {
      if hasProcessor {
        processorRuns := processorRuns + 1;
      }
    }

    /** PullResult(): record and the three flags copied into the cache; its status is not. */
    method PullResult()
      requires result != null
      modifies cache
      ensures cache.State() == result.State().(status := old(cache.status))
      ensures cache.request == old(cache.request)
    {
      cache.record := result.record;
      cache.isDeleted := result.isDeleted;
      cache.isNull := result.isNull;
      cache.isError := result.isError;
    }

    /** Notify(): is_finished_ becomes true; the waiting side is not modelled. */
    method Notify()
      modifies this
      ensures finished
      ensures result == old(result) && dependents == old(dependents) && processorRuns == old(processorRuns)
      ensures record == old(record) && typeArg == old(typeArg)
    {
      finished := true;
    }
  }
}
