/**
 * A transaction's execution (include/transaction/transaction-execution.h,
 * src/transaction/transaction-execution.cpp) together with the Call and
 * Next steps of its operations (src/transaction/transaction-operation.cpp).
 *
 * The execution owns one node per singleton operation and the lazily grown
 * vectors of fan-out children; pointers to them are Op values, and the call
 * stack is a sequence of optional Ops. Calls into the version store, the data
 * store and the log are appended to `issued`; their answers are written into
 * a node's handler slot by Deliver, which stands for the handler. The wall
 * clock is the `now` argument. A call to Recover, which throws, sets `fatal`.
 */
module Executions {
  import opened Wrappers
  import opened Bytes
  import opened Keys
  import opened Records
  import opened VersionEntries
  import opened TxEntries
  import opened ReadSetEntries
  import opened WriteSetEntries
  import opened HandlerResults
  import opened LocalStates
  import opened Operations
  import opened TimeProviders
  import opened TxnIdGenerators
  import Requests

  /** kMaxTxnExecutionTimeMS. */
  const kMaxTxnExecutionTimeMS: int := 100000

  /** Both pools of the local state start with room for this many entries. */
  const kLocalStateCapacity: nat := 10

  /** A call an operation makes into the handler, the data store or the log. */
  datatype HandlerCall =
    | GetVersionList(table: Text, key: Key, readTs: int)
    | UploadVersion(setKey: Option<SetKey>, version: VersionEntry)
    | SetCommitTimestamp(txId: int, proposed: int)
    | UpdateMaxCommitTsAndReread(setKey: Option<SetKey>, readVersion: int, commitTs: int)
    | UpdateCommitLowerBound(txId: int, lowerBound: int)
    | AppendLog(commitTs: int, writes: seq<Slot<WriteSetEntry>>, txn: TxnEntry)
    | UpdateTxnStatus(txId: int, status: TxnStatus)
    | CommitVersion(setKey: Option<SetKey>, writeVersion: int, txId: int, commitTs: int, endTs: int,
                    lockTxId: int, record: Option<Record>)
    | DeleteVersion(setKey: Option<SetKey>, writeVersion: int)
    | ReleaseReadCount(setKey: Option<SetKey>, readVersion: int)
    | NewTxn(txn: TxnEntry, readTs: int, timeout: int)
    | ReadRecord(table: Text, key: Key)

  /** The scalar members of TransactionExecution. */
  datatype Scalars = Scalars(
    status: TxnStatus,
    commitTs: int,
    maxWritersTs: int,
    commitTsLocal: int,
    txnId: int,
    txnEntry: TxnEntry,
    finished: bool,
    typeArg: int,
    fatal: bool)

  const AllKinds: set<Kind> :=
    {InitTxn, ReadOutside, Insert, Upsert, Update, Delete, ReadDataStore, Upload, SetCommitTs, Validate,
     WriteToLog, UpdateTxnStatusToCommit, PostProcessingAfterCommit, UpdateTxnStatusToAbort,
     PostProcessingAfterAbort, ReleaseReadCounter}

  const AllFamilies: set<Family> :=
    {UploadVersionEntry, UpdateReadEntryMaxCommitTs, PushConflictTxnCommitTsLowerBound,
     PostProcessingCommitEntryAfterCommit, PostProcessingDeleteEntryAfterAbort, ReleaseReadCounterForEachEntry}

  lemma EveryKindAndFamilyListed()
    ensures forall k: Kind :: k in AllKinds
    ensures forall f: Family :: f in AllFamilies
  {
    forall k: Kind
      ensures k in AllKinds
    {
      match k
      case InitTxn => case ReadOutside => case Insert => case Upsert => case Update => case Delete =>
      case ReadDataStore => case Upload => case SetCommitTs => case Validate => case WriteToLog =>
      case UpdateTxnStatusToCommit => case PostProcessingAfterCommit => case UpdateTxnStatusToAbort =>
      case PostProcessingAfterAbort => case ReleaseReadCounter =>
    }
    forall f: Family
      ensures f in AllFamilies
    {
      match f
      case UploadVersionEntry => case UpdateReadEntryMaxCommitTs => case PushConflictTxnCommitTsLowerBound =>
      case PostProcessingCommitEntryAfterCommit => case PostProcessingDeleteEntryAfterAbort =>
      case ReleaseReadCounterForEachEntry =>
    }
  }

  /** What a read reports, applied to the result the client reads. */
  function ApplyReply(s: Requests.ResultState, reply: ReadReply): Requests.ResultState {
    match reply
    case NullReply => s.(isNull := true)
    case DeletedReply => s.(isDeleted := true)
    case RecordReply(r) => s.(record := r)
  }

  /** What a write rule does to the client's result: only a rejection changes it, to an error. */
  function WriteOutcome(s: Requests.ResultState, choice: WriteChoice): Requests.ResultState {
    if choice == Reject then s.(isError := true) else s
  }

  /** What the delete rule does to the client's result: only a rejection changes it, to an error. */
  function DeleteOutcome(s: Requests.ResultState, choice: DeleteChoice): Requests.ResultState {
    if choice == DeleteRejected then s.(isError := true) else s
  }

  /** The slot of a pool at i, or a blank slot past its end. */
  function SlotAt<E>(slots: seq<Slot<E>>, i: nat, blank: Slot<E>): Slot<E> {
    if i < |slots| then slots[i] else blank
  }

  class TransactionExecution {
    var stack: seq<Option<Op>>
    var singles: map<Kind, Node>
    var children: map<Family, seq<Node>>
    var issued: seq<(Op, HandlerCall)>
    var status: TxnStatus
    var commitTs: int
    var maxWritersTs: int
    var commitTsLocal: int
    var txnId: int
    var txnEntry: TxnEntry
    var finished: bool
    var typeArg: int
    var fatal: bool
    var currentRequest: Requests.OperationRequest?
    const executorId: int
    const localState: LocalState
    const result: Requests.Result
    const clock: LocalTimeProvider
    const idGen: SimpleTxnIdGenerator
    const hasTxLog: bool
    const enableLog: bool
    ghost const Repr: set<object>

    ghost predicate Valid()
      reads this, Repr
    {
      Repr == {this, localState, localState.readSet, localState.writeSet, result}
      && localState.Repr == {localState, localState.readSet, localState.writeSet}
      && localState.Valid()
      && (forall k: Kind :: k in singles)
      && (forall f: Family :: f in children)
      && (|stack| > 0 ==> result.request != null)
    }

    /** The scalar members. */
    function State(): Scalars
      reads this
    {
      Scalars(status, commitTs, maxWritersTs, commitTsLocal, txnId, txnEntry, finished, typeArg, fatal)
    }

    function ReadSlots(): seq<Slot<ReadSetEntry>>
      reads localState.readSet
    {
      localState.readSet.slots
    }

    function WriteSlots(): seq<Slot<WriteSetEntry>>
      reads localState.writeSet
    {
      localState.writeSet.slots
    }

    function ReadSlot(i: nat): Slot<ReadSetEntry>
      reads localState.readSet
    {
      SlotAt(localState.readSet.slots, i, Slot(None, ReadSetEntries.Default()))
    }

    function WriteSlot(i: nat): Slot<WriteSetEntry>
      reads localState.writeSet
    {
      SlotAt(localState.writeSet.slots, i, Slot(None, WriteSetEntries.Default()))
    }

    /** The node behind an Op; a child that was never created reads as a blank node. */
    function Get(op: Op): Node
      reads this
    {
      match NodeAt(singles, children, op)
      case Some(n) => n
      case None => BlankNode()
    }

    /**
     * IsFinished() of the operation op points to. One that waits on its
     * handler is finished exactly when its handler result is; Update and
     * Delete always are; a child never created never is.
     */
    function IsOpFinished(op: Op): (b: bool)
      reads this
      ensures NodeAt(singles, children, op).Some? && WaitsOnHandler(op) ==> (b <==> Get(op).slot.flags.finished)
      ensures op == Single(Kind.Update) || op == Single(Kind.Delete) ==> (b <==> op.kind in singles)
      ensures NodeAt(singles, children, op).None? ==> !b
    {
      Operations.IsFinished(singles, children, op)
    }

    /**
     * IsCascadeFinished() of the operation op points to: for a singleton
     * other than Update and Delete, finished and already moved past; Update
     * and Delete always are.
     */
    function IsOpCascadeFinished(op: Op): (b: bool)
      reads this
      ensures op.Single? && op.kind != Kind.Update && op.kind != Kind.Delete
              ==> (b <==> IsOpFinished(op) && op.kind in singles && Get(op).moveToNext)
      ensures op == Single(Kind.Update) || op == Single(Kind.Delete) ==> b
    {
      Operations.IsCascadeFinished(singles, children, op)
    }

    /** The call op's CallImpl makes in the current state, if it makes one. */
    function CallOf(op: Op): Option<HandlerCall>
      reads this, localState.readSet, localState.writeSet
    {
      CallFor(op, Get(op), State(), localState.readSet.slots, localState.writeSet.slots, localState.writeSet.popIndex)
    }

    /** The read pool's logical contents. */
    function ReadContents(): seq<Slot<ReadSetEntry>>
      reads localState.readSet
    {
      Prefix(localState.readSet.slots, localState.readSet.popIndex)
    }

    /** The write pool's logical contents. */
    function WriteContents(): seq<Slot<WriteSetEntry>>
      reads localState.writeSet
    {
      Prefix(localState.writeSet.slots, localState.writeSet.popIndex)
    }

    twostate predicate NodesKept()
      reads this
    {
      singles == old(singles) && children == old(children)
    }

    twostate predicate CallsKept()
      reads this
    {
      stack == old(stack) && issued == old(issued) && currentRequest == old(currentRequest)
    }

    /**
     * The call a singleton's own CallImpl adds to the trace: SetCommitTs
     * proposes the commit timestamp it has just chosen, WriteToLog appends
     * the write set unless it finished at once, and the others make the
     * call their node describes, if any.
     */
    twostate predicate OwnCallIssued(k: Kind)
      reads this, localState.writeSet
    {
      if k == Kind.SetCommitTs then
        issued == old(issued) + [(Single(k), SetCommitTimestamp(txnId, commitTs))]
      else if k == WriteToLog then
        issued == old(issued) + (if localState.writeSet.popIndex != 0 && enableLog && hasTxLog
                                 then [(Single(k), AppendLog(commitTs, Prefix(WriteSlots(), localState.writeSet.popIndex), txnEntry))]
                                 else [])
      else
        issued == old(issued) + (if old(CallOf(Single(k))).Some? then [(Single(k), old(CallOf(Single(k))).value)] else [])
    }

    /**
     * The calls a node's CallImpl adds to the trace: a child makes its one
     * call; Insert and Upsert the read outside of their key; a fan-out
     * parent one call per child, in order; the other singletons their own.
     */
    twostate predicate CallsIssued(op: Op)
      reads this, localState.writeSet
    {
      match op
      case Child(_, _) =>
        old(CallOf(op)).Some? && issued == old(issued) + [(op, old(CallOf(op)).value)]
      case Single(k) =>
        if k == Insert || k == Upsert then
          issued == old(issued) + [(Single(ReadOutside), GetVersionList(old(Get(op)).table, old(Get(op)).key, old(commitTsLocal)))]
        else if ChildFamily(k).Some? then
          var f := ChildFamily(k).value;
          var count := |ParentTargets(k, old(Get(op)))|;
          f in children && count <= |children[f]|
          && issued == old(issued) + FanOutCalls(f, children[f], count, old(State()), old(ReadSlots()), old(WriteSlots()))
        else
          OwnCallIssued(k)
    }

    twostate predicate ReadPoolKept()
      reads localState.readSet
    {
      localState.readSet.slots == old(localState.readSet.slots)
      && localState.readSet.popIndex == old(localState.readSet.popIndex)
      && localState.readSet.capacity == old(localState.readSet.capacity)
    }

    twostate predicate WritePoolKept()
      reads localState.writeSet
    {
      localState.writeSet.slots == old(localState.writeSet.slots)
      && localState.writeSet.popIndex == old(localState.writeSet.popIndex)
      && localState.writeSet.capacity == old(localState.writeSet.capacity)
    }

    twostate predicate ResultKept()
      reads result
    {
      result.State() == old(result.State()) && result.request == old(result.request)
    }

    /**
     * The constructor: pools of capacity 10, every node fresh, every child
     * vector empty, an empty stack and no current request. The members the
     * source leaves uninitialised start as Reset leaves them.
     */
    constructor(id: int, clk: LocalTimeProvider, gen: SimpleTxnIdGenerator, txLog: bool, logEnabled: bool)
      ensures Valid() && fresh(Repr)
      ensures executorId == id && clock == clk && idGen == gen && hasTxLog == txLog && enableLog == logEnabled
      ensures stack == [] && issued == [] && currentRequest == null
      ensures forall k: Kind :: singles[k] == BlankNode()
      ensures forall f: Family :: children[f] == []
      ensures State() == Scalars(Ongoing, kDefaultCommitTs, -1, 0, kEmptyTxId, TxEntries.Default(), false, 0, false)
      ensures localState.readSet.popIndex == 0 && localState.writeSet.popIndex == 0
      ensures result.State() == Requests.FreshResultState(None) && result.request == null
    {
      EveryKindAndFamilyListed();
      executorId := id;
      clock := clk;
      idGen := gen;
      hasTxLog := txLog;
      enableLog := logEnabled;
      var ls := new LocalState(kLocalStateCapacity);
      localState := ls;
      var r := new Requests.Result();
      result := r;
      stack := [];
      singles := map k | k in AllKinds :: BlankNode();
      children := map f | f in AllFamilies :: [];
      issued := [];
      status := Ongoing;
      commitTs := kDefaultCommitTs;
      maxWritersTs := -1;
      commitTsLocal := 0;
      txnId := kEmptyTxId;
      txnEntry := TxEntries.Default();
      finished := false;
      typeArg := 0;
      fatal := false;
      currentRequest := null;
      Repr := {this, ls, ls.readSet, ls.writeSet, r};
    }

    /** SetCurrentRequest(request). */
    method SetCurrentRequest(r: Requests.OperationRequest)
      requires Valid()
      modifies this
      ensures Valid() && currentRequest == r
      ensures State() == old(State()) && stack == old(stack) && issued == old(issued)
      ensures singles == old(singles) && children == old(children)
    {
      currentRequest := r;
    }

    /**
     * The answer to op is in op's node and nowhere else: no node appears or
     * vanishes, every other node is as it was, and so are the scalars, the
     * stack, the calls issued and the request bound.
     */
    twostate predicate Answered(op: Op, reply: HandlerSlot)
      reads this
    {
      (NodeAt(old(singles), old(children), op).Some? ==> Get(op) == old(Get(op)).(slot := reply))
      && (forall o: Op :: o != op ==> NodeAt(singles, children, o) == NodeAt(old(singles), old(children), o))
      && (NodeAt(singles, children, op).Some? <==> NodeAt(old(singles), old(children), op).Some?)
      && Settled()
    }

    /** Only answers arrived: the scalars, the stack, the calls issued and the request bound are as they were. */
    twostate predicate Settled()
      reads this
    {
      State() == old(State()) && stack == old(stack) && issued == old(issued) && currentRequest == old(currentRequest)
    }

    /**
     * The handler (or the log, or the data store) answering the call op
     * made: it writes the node's handler slot and nothing else.
     */
    method Deliver(op: Op, reply: HandlerSlot)
      requires Valid()
      modifies this
      ensures Valid() && Answered(op, reply)
      ensures NodeAt(singles, children, op).Some? && WaitsOnHandler(op) ==> (IsOpFinished(op) <==> reply.flags.finished)
    {
      PutNode(op, Get(op).(slot := reply));
    }

    /** Writing back the node op points to; a child that does not exist stays absent. */
    method PutNode(op: Op, n: Node)
      requires Valid()
      modifies this
      ensures Valid()
      ensures NodeAt(old(singles), old(children), op).Some? ==> NodeAt(singles, children, op) == Some(n)
      ensures forall o: Op :: o != op ==> NodeAt(singles, children, o) == NodeAt(old(singles), old(children), o)
      ensures NodeAt(singles, children, op).Some? <==> NodeAt(old(singles), old(children), op).Some?
      ensures forall f: Family :: |children[f]| == |old(children)[f]|
      ensures State() == old(State()) && stack == old(stack) && issued == old(issued)
      ensures currentRequest == old(currentRequest)
    {
      match op
      case Single(k) =>
        singles := singles[k := n];
      case Child(f, i) =>
        if i < |children[f]| {
          children := children[f := children[f][i := n]];
        }
    }

    /** Grows a child vector to at least `count` nodes with fresh ones, as the fan-out parents do. */
    method Grow(f: Family, count: nat)
      requires Valid()
      modifies this
      ensures Valid()
      ensures children[f] == GrownTo(old(children)[f], count)
      ensures forall g: Family :: g != f ==> children[g] == old(children)[g]
      ensures singles == old(singles) && CallsKept() && State() == old(State())
    {
      while |children[f]| < count
        invariant Valid()
        invariant |old(children)[f]| <= |children[f]| <= |GrownTo(old(children)[f], count)|
        invariant forall j :: 0 <= j < |children[f]| ==> children[f][j] == NodeOrBlank(old(children)[f], j)
        invariant forall g: Family :: g != f ==> children[g] == old(children)[g]
        invariant singles == old(singles) && CallsKept() && State() == old(State())
        decreases count - |children[f]|
      {
        children := children[f := children[f] + [BlankNode()]];
      }
      assert children[f] == GrownTo(old(children)[f], count);
    }

    // -------------------------------------------------------------------
    // Calling operations
    // -------------------------------------------------------------------

    /** The call child i of f makes in the current state. */
    function ChildCall(f: Family, i: nat): HandlerCall
      reads this, localState.readSet, localState.writeSet
    {
      ChildCallFor(f, Get(Child(f, i)), State(), localState.readSet.slots, localState.writeSet.slots)
    }

    /** The CallImpl of an operation that makes one call: the call is issued and nothing else changes. */
    method Issue(op: Op)
      requires Valid() && CallOf(op).Some?
      modifies this
      ensures Valid()
      ensures issued == old(issued) + [(op, CallOf(op).value)]
      ensures stack == old(stack) && currentRequest == old(currentRequest) && NodesKept() && State() == old(State())
    {
      issued := issued + [(op, CallOf(op).value)];
    }

    /** Call() of a node: move_to_next_ is cleared before CallImpl runs. */
    method ClearMoveToNext(op: Op)
      requires Valid()
      modifies this
      ensures Valid()
      ensures NodeAt(old(singles), old(children), op).Some? ==> NodeAt(singles, children, op) == Some(old(Get(op)).(moveToNext := false))
      ensures forall o: Op :: o != op ==> NodeAt(singles, children, o) == NodeAt(old(singles), old(children), o)
      ensures forall f: Family :: |children[f]| == |old(children)[f]|
      ensures CallsKept() && State() == old(State())
    {
      PutNode(op, Get(op).(moveToNext := false));
    }

    /**
     * ResetTime(): a fresh local commit timestamp from the clock, which
     * also becomes the transaction entry's commit lower bound.
     */
    method ResetTime(now: int)
      requires Valid() && clock.Valid()
      modifies this, clock
      ensures Valid() && clock.Valid()
      ensures (commitTsLocal, clock.State()) == GetTimeStep(old(clock.State()), now)
      ensures State() == old(State()).(commitTsLocal := commitTsLocal, txnEntry := ResetLowerBound(old(txnEntry), commitTsLocal))
      ensures CallsKept() && NodesKept()
    {
      commitTsLocal := clock.GetTime(now);
      txnEntry := ResetLowerBound(txnEntry, commitTsLocal);
    }

    /**
     * ResetTxnIDAndTime(): a new transaction id from the generator, a fresh
     * local timestamp, and a transaction entry reset to both.
     */
    method ResetTxnIDAndTime(now: int)
      requires Valid() && clock.Valid() && idGen.Valid()
      modifies this, clock, idGen
      ensures Valid() && clock.Valid() && idGen.Valid()
      ensures txnId == idGen.id && idGen.id == idGen.start + Step(idGen.end - idGen.start, old(idGen.id) - idGen.start)
      ensures (commitTsLocal, clock.State()) == GetTimeStep(old(clock.State()), now)
      ensures State() == old(State()).(txnId := txnId, commitTsLocal := commitTsLocal, txnEntry := TxEntries.Reset(txnId, commitTsLocal))
      ensures CallsKept() && NodesKept()
    {
      txnId := idGen.GenerateID();
      commitTsLocal := clock.GetTime(now);
      txnEntry := TxEntries.Reset(txnId, commitTsLocal);
    }

    /**
     * The fold of SetCommitTsOperation::CallImpl over the read set in use,
     * from `start`: each read raises the proposal to its begin_ts, or one
     * more when its key is also in the write set.
     */
    method ProposeCommitTs(start: int) returns (proposed: int)
      requires Valid()
      ensures proposed == Proposal(start, localState.readSet.Contents(), localState.writeSet.Contents())
    {
      proposed := start;
      var size := localState.GetReadSetSize();
      var i := 0;
      while i < size
        invariant 0 <= i <= size == localState.readSet.popIndex <= |localState.readSet.slots|
        invariant proposed == Proposal(start, localState.readSet.Contents()[..i], localState.writeSet.Contents())
      {
        var s := localState.readSet.slots[i];
        var written := false;
        if s.key.Some? {
          var w := localState.FindInWriteSet(s.key.value.tableName, s.key.value.key);
          written := w.Some?;
        }
        assert localState.readSet.Contents()[..i + 1][..i] == localState.readSet.Contents()[..i];
        if written {
          proposed := Operations.Max(proposed, s.entry.beginTs + 1);
        } else {
          proposed := Operations.Max(proposed, s.entry.beginTs);
        }
        i := i + 1;
      }
      assert localState.readSet.Contents()[..size] == localState.readSet.Contents();
    }

    /** SetCommitTs(candidate): the commit timestamp and the clock both move to it. */
    method SetCommitTs(candidate: int)
      requires Valid()
      modifies this, clock
      ensures Valid() && clock.Valid()
      ensures clock.State() == SetTimeStep(old(clock.State()), candidate)
      ensures State() == old(State()).(commitTs := candidate)
      ensures CallsKept() && NodesKept()
    {
      commitTs := candidate;
      clock.SetTime(candidate);
    }

    /**
     * SetCommitTsOperation::CallImpl: after ResetTime, the proposal starts
     * above every writer's commit timestamp and at the local timestamp, and
     * rises to each read's begin_ts (one more for a key also written); it
     * becomes the commit timestamp and is sent to the handler.
     */
    method CallSetCommitTs(now: int)
      requires Valid() && clock.Valid()
      modifies this, clock
      ensures Valid() && clock.Valid()
      ensures (commitTsLocal, GetTimeStep(old(clock.State()), now).1) == GetTimeStep(old(clock.State()), now)
      ensures commitTs == Proposal(Operations.Max(old(maxWritersTs) + 1, commitTsLocal),
                                   localState.readSet.Contents(), localState.writeSet.Contents())
      ensures clock.State() == SetTimeStep(GetTimeStep(old(clock.State()), now).1, commitTs)
      ensures State() == old(State()).(commitTsLocal := commitTsLocal, commitTs := commitTs,
                                       txnEntry := ResetLowerBound(old(txnEntry), commitTsLocal))
      ensures issued == old(issued) + [(Single(Kind.SetCommitTs), SetCommitTimestamp(txnId, commitTs))]
      ensures stack == old(stack) && currentRequest == old(currentRequest) && NodesKept()
    {
      ResetTime(now);
      var proposed := ProposeCommitTs(Operations.Max(maxWritersTs + 1, commitTsLocal));
      SetCommitTs(proposed);
      Issue(Single(Kind.SetCommitTs));
    }

    /**
     * WriteToLog::CallImpl: with an empty write set, logging switched off
     * or no log, the step finishes at once; otherwise the transaction entry
     * takes the commit timestamp and the write set goes to the log.
     */
    method CallWriteToLog()
      requires Valid()
      modifies this
      ensures Valid()
      ensures var logged := localState.writeSet.popIndex != 0 && enableLog && hasTxLog;
              && (!logged ==> issued == old(issued) && State() == old(State())
                                && singles == old(singles)[WriteToLog := old(singles[WriteToLog]).(slot := old(singles[WriteToLog]).slot.(flags := old(singles[WriteToLog]).slot.flags.(finished := true)))])
              && (logged ==> State() == old(State()).(txnEntry := old(txnEntry).(commitTs := commitTs)) && singles == old(singles)
                             && issued == old(issued) + [(Single(WriteToLog), AppendLog(commitTs, localState.writeSet.Contents(), txnEntry))])
      ensures stack == old(stack) && currentRequest == old(currentRequest) && children == old(children)
    {
      if localState.GetWriteSetSize() == 0 || !enableLog || !hasTxLog {
        var n := singles[WriteToLog];
        singles := singles[WriteToLog := n.(slot := n.slot.(flags := n.slot.flags.(finished := true)))];
      } else {
        txnEntry := txnEntry.(commitTs := commitTs);
        Issue(Single(WriteToLog));
      }
    }

    /**
     * The write half shared by InsertOperation::NextImpl,
     * UpsertOperation::NextImpl and UpdateOperation::CallImpl: the newest
     * read entry for the key decides, by the operation's rule, whether a
     * write entry one version up is added (the read entry is then marked
     * updated and the request finishes), the request fails, or nothing
     * happens.
     */
    method ApplyWriteRule(k: Kind, table: Text, key: Key, record: Option<Record>)
      requires Valid() && result.request != null
      modifies localState.readSet, localState.writeSet, result, result.request
      ensures Valid() && result.request == old(result.request)
      ensures var r := FindNewest(old(ReadContents()), table, key);
              var choice := WriteRule(k, EntryAt(old(ReadContents()), r));
              WriteApplied(table, key, record, r, choice) && result.State() == WriteOutcome(old(result.State()), choice)
      ensures WriteRule(k, EntryAt(old(ReadContents()), FindNewest(old(ReadContents()), table, key))) != Skip ==> result.request.finished
    {
      var r := localState.FindInReadSet(table, key);
      ApplyWriteChoice(k, table, key, record, r);
    }

    /** The write rule of k applied against read entry r, the newest one found for the key. */
    method ApplyWriteChoice(k: Kind, table: Text, key: Key, record: Option<Record>, r: Option<nat>)
      requires Valid() && result.request != null && r == FindNewest(ReadContents(), table, key)
      modifies localState.readSet, localState.writeSet, result, result.request
      ensures Valid() && result.request == old(result.request)
      ensures var choice := WriteRule(k, EntryAt(old(ReadContents()), r));
              && WriteApplied(table, key, record, r, choice) && result.State() == WriteOutcome(old(result.State()), choice)
              && (choice != Skip ==> result.request.finished)
    {
      var read := if r.Some? then Some(localState.readSet.slots[r.value].entry) else None;
      assert read == EntryAt(ReadContents(), r);
      match WriteRule(k, read)
      case WriteVersion(v) =>
        var s := localState.readSet.slots[r.value];
        localState.readSet.Update(r.value, s.(entry := s.entry.(isUpdated := true)));
        localState.InsertWriteSet(table, key, v, false, record, r);
        result.SetFinished();
      case Reject =>
        result.SetError();
      case Skip =>
    }

    /**
     * The effect of a write rule on the pools: a write marks read slot r
     * updated and appends the write entry; a rejection or a skip changes
     * neither pool.
     */
    twostate predicate WriteApplied(table: Text, key: Key, record: Option<Record>, r: Option<nat>, choice: WriteChoice)
      reads localState.readSet, localState.writeSet
    {
      match choice
      case WriteVersion(v) =>
        r.Some? && r.value < old(localState.readSet.popIndex) <= |old(localState.readSet.slots)|
        && localState.readSet.slots == old(localState.readSet.slots)[r.value := old(localState.readSet.slots)[r.value].(entry := old(localState.readSet.slots)[r.value].entry.(isUpdated := true))]
        && localState.readSet.popIndex == old(localState.readSet.popIndex)
        && WriteContents() == old(WriteContents()) + [Slot(Some(SetKey(table, key)), WriteSetEntries.Reset(v, false, record, r))]
      case Reject =>
        ReadPoolKept() && WritePoolKept()
      case Skip =>
        ReadPoolKept() && WritePoolKept()
    }

    /**
     * DeleteOperation::CallImpl: the newest write entry for the key decides
     * first (turned into a tombstone in place, or an error if it already is
     * one); without one, a live read entry gets a new tombstone one version
     * up; otherwise the request fails.
     */
    method CallDelete()
      requires Valid() && result.request != null
      modifies localState.readSet, localState.writeSet, result, result.request
      ensures Valid() && result.request == old(result.request) && result.request.finished
      ensures var n := singles[Kind.Delete];
              var w := FindNewest(old(WriteContents()), n.table, n.key);
              var r := FindNewest(old(ReadContents()), n.table, n.key);
              var choice := DeleteRule(EntryAt(old(WriteContents()), w), EntryAt(old(ReadContents()), r));
              DeleteApplied(n.table, n.key, w, r, choice) && result.State() == DeleteOutcome(old(result.State()), choice)
    {
      var n := singles[Kind.Delete];
      var w := localState.FindInWriteSet(n.table, n.key);
      var r := localState.FindInReadSet(n.table, n.key);
      ApplyDeleteRule(n.table, n.key, w, r);
    }

    /** The delete rule applied to the newest write entry w and read entry r found for the key. */
    method ApplyDeleteRule(table: Text, key: Key, w: Option<nat>, r: Option<nat>)
      requires Valid() && result.request != null
      requires w == FindNewest(WriteContents(), table, key) && r == FindNewest(ReadContents(), table, key)
      modifies localState.readSet, localState.writeSet, result, result.request
      ensures Valid() && result.request == old(result.request) && result.request.finished
      ensures var choice := DeleteRule(EntryAt(old(WriteContents()), w), EntryAt(old(ReadContents()), r));
              DeleteApplied(table, key, w, r, choice) && result.State() == DeleteOutcome(old(result.State()), choice)
    {
      var write := if w.Some? then Some(localState.writeSet.slots[w.value].entry) else None;
      var read := if r.Some? then Some(localState.readSet.slots[r.value].entry) else None;
      assert write == EntryAt(WriteContents(), w) && read == EntryAt(ReadContents(), r);
      match DeleteRule(write, read)
      case TombstoneInPlace =>
        var s := localState.writeSet.slots[w.value];
        localState.writeSet.Update(w.value, s.(entry := Tombstoned(s.entry)));
        result.SetFinished();
      case NewTombstone(v) =>
        var s := localState.readSet.slots[r.value];
        localState.readSet.Update(r.value, s.(entry := s.entry.(isUpdated := true)));
        localState.InsertWriteSet(table, key, v, true, None, r);
        result.SetFinished();
      case DeleteRejected =>
        result.SetError();
    }

    /** The effect of the delete rule on the pools. */
    twostate predicate DeleteApplied(table: Text, key: Key, w: Option<nat>, r: Option<nat>, choice: DeleteChoice)
      reads localState.readSet, localState.writeSet
    {
      match choice
      case TombstoneInPlace =>
        w.Some? && w.value < old(localState.writeSet.popIndex) <= |old(localState.writeSet.slots)|
        && localState.writeSet.slots == old(localState.writeSet.slots)[w.value := old(localState.writeSet.slots)[w.value].(entry := Tombstoned(old(localState.writeSet.slots)[w.value].entry))]
        && localState.writeSet.popIndex == old(localState.writeSet.popIndex)
        && ReadPoolKept()
      case NewTombstone(v) =>
        r.Some? && r.value < old(localState.readSet.popIndex) <= |old(localState.readSet.slots)|
        && localState.readSet.slots == old(localState.readSet.slots)[r.value := old(localState.readSet.slots)[r.value].(entry := old(localState.readSet.slots)[r.value].entry.(isUpdated := true))]
        && localState.readSet.popIndex == old(localState.readSet.popIndex)
        && WriteContents() == old(WriteContents()) + [Slot(Some(SetKey(table, key)), WriteSetEntries.Reset(v, true, None, r))]
      case DeleteRejected =>
        ReadPoolKept() && WritePoolKept()
    }

    /**
     * ReadOutsideOperation::Reset: the request's arguments, a new read slot
     * to fill, and both version slots of the handler result reset to carry
     * the client's record.
     */
    method ResetReadOutside(table: Text, key: Key, record: Option<Record>, isDeleted: bool)
      requires Valid()
      modifies this, localState.readSet
      ensures Valid()
      ensures localState.readSet.popIndex == old(localState.readSet.popIndex) + 1
      ensures localState.readSet.capacity >= old(localState.readSet.capacity)
      ensures forall j :: 0 <= j < old(localState.readSet.capacity) ==> localState.readSet.slots[j] == old(localState.readSet.slots[j])
      ensures var n := old(singles[ReadOutside]);
              singles == old(singles)[ReadOutside := n.(table := table, key := key, record := record, isDeleted := isDeleted,
                                                        target := old(localState.readSet.popIndex),
                                                        slot := n.slot.(flags := ResetFlags(), first := ResetToDefault(result.record),
                                                                        second := ResetToDefault(result.record)))]
      ensures children == old(children) && CallsKept() && State() == old(State())
    {
      var index := localState.InsertReadSet();
      var n := singles[ReadOutside];
      singles := singles[ReadOutside := n.(table := table, key := key, record := record, isDeleted := isDeleted, target := index,
                                           slot := n.slot.(flags := ResetFlags(), first := ResetToDefault(result.record),
                                                           second := ResetToDefault(result.record)))];
    }

    /**
     * The fan-out of Upload, Validate and the three post-processing
     * parents: the child vector of f grows to |targets|, and child i, reset
     * towards pool slot targets[i], is pushed and called, in order.
     */
    method FanOut(f: Family, targets: seq<nat>)
      requires Valid() && result.request != null
      modifies this
      ensures Valid()
      ensures children[f] == FannedOut(f, GrownTo(old(children)[f], |targets|), targets, old(WriteSlots()), old(txnId))
      ensures forall g: Family :: g != f ==> children[g] == old(children)[g]
      ensures stack == old(stack) + ChildPushes(f, |targets|)
      ensures issued == old(issued) + FanOutCalls(f, children[f], |targets|, old(State()), old(ReadSlots()), old(WriteSlots()))
      ensures singles == old(singles) && State() == old(State()) && currentRequest == old(currentRequest)
    {
      var sc := State();
      Grow(f, |targets|);
      var prepared, calls := PrepareChildren(f, children[f], targets, sc, ReadSlots(), WriteSlots());
      Install(f, prepared, |targets|, calls);
    }

    /** The children of f replaced by `prepared`, the first `count` pushed, and their calls issued. */
    method Install(f: Family, prepared: seq<Node>, count: nat, calls: seq<(Op, HandlerCall)>)
      requires Valid() && result.request != null
      modifies this
      ensures Valid()
      ensures children == old(children)[f := prepared] && stack == old(stack) + ChildPushes(f, count)
      ensures issued == old(issued) + calls
      ensures singles == old(singles) && State() == old(State()) && currentRequest == old(currentRequest)
    {
      children := children[f := prepared];
      stack := stack + ChildPushes(f, count);
      issued := issued + calls;
    }
    // -------------------------------------------------------------------
    // Next steps of the operations
    // -------------------------------------------------------------------

    /** Read slot i with its read counter marked released. */
    method ReleaseReadEntry(i: nat)
      requires Valid()
      modifies localState.readSet
      ensures Valid()
      ensures localState.readSet.slots == Released(old(localState.readSet.slots), i)
      ensures localState.readSet.popIndex == old(localState.readSet.popIndex)
    {
      if i < localState.readSet.capacity {
        var s := localState.readSet.slots[i];
        localState.readSet.Update(i, s.(entry := s.entry.(needRelease := false)));
      }
    }

    /**
     * ReadOutsideOperation::NextImpl. On a handler error the new read slot
     * is given back and the request fails. Otherwise the visible version of
     * the two returned (or the deleted placeholder) fills the read slot
     * under the request's key, and the request reports a tombstone, the
     * record, or null.
     */
    method NextReadOutside() returns (next: Option<Op>)
      requires Valid() && result.request != null
      modifies localState.readSet, result, result.request
      ensures Valid() && next == None && result.request == old(result.request) && result.request.finished
      ensures var n := singles[ReadOutside];
              if n.slot.flags.error then
                localState.readSet.slots == old(localState.readSet.slots)
                && localState.readSet.popIndex == (if old(localState.readSet.popIndex) > 0 then old(localState.readSet.popIndex) - 1 else 0)
                && result.State() == old(result.State()).(isError := true)
              else
                var visible := PickVisibleVersion([n.slot.first, n.slot.second]);
                localState.readSet.slots == Filled(old(localState.readSet.slots), n.target, Slot(Some(SetKey(n.table, n.key)), ReadEntryFor(visible)))
                && localState.readSet.popIndex == old(localState.readSet.popIndex)
                && result.State() == ApplyReply(old(result.State()), ReadReplyFor(visible))
    {
      var n := singles[ReadOutside];
      if n.slot.flags.error {
        if localState.readSet.popIndex > 0 {
          localState.ReleaseReadSet();
        }
        result.SetError();
      } else {
        var visible := PickVisibleVersion([n.slot.first, n.slot.second]);
        if n.target < localState.readSet.capacity {
          localState.readSet.Update(n.target, Slot(Some(SetKey(n.table, n.key)), ReadEntryFor(visible)));
        }
        match ReadReplyFor(visible)
        case NullReply => result.SetNull();
        case DeletedReply => result.SetDeleted();
        case RecordReply(r) => result.SetRecord(r);
      }
      next := None;
    }

    /**
     * InitTxnOperation::NextImpl. A failed NewTxn is retried with a new
     * transaction id and a fresh timestamp; otherwise the transaction takes
     * the entry the handler filled in and its id, and the request finishes.
     */
    method NextInitTxn(now: int) returns (next: Option<Op>)
      requires Valid() && clock.Valid() && idGen.Valid() && result.request != null
      modifies this, clock, idGen, result.request
      ensures Valid() && clock.Valid() && idGen.Valid()
      ensures var n := old(singles[InitTxn]);
              if n.slot.flags.error then
                next == Some(Single(InitTxn))
                && txnId == idGen.id && idGen.id == idGen.start + Step(idGen.end - idGen.start, old(idGen.id) - idGen.start)
                && (commitTsLocal, clock.State()) == GetTimeStep(old(clock.State()), now)
                && State() == old(State()).(txnId := txnId, commitTsLocal := commitTsLocal, txnEntry := TxEntries.Reset(txnId, commitTsLocal))
                && singles == old(singles)[InitTxn := Rearmed(n)]
              else
                next == None && result.request.finished
                && State() == old(State()).(txnEntry := n.slot.txn, txnId := n.slot.txn.txId)
                && singles == old(singles) && clock.State() == old(clock.State()) && idGen.id == old(idGen.id)
      ensures children == old(children) && CallsKept()
    {
      var n := singles[InitTxn];
      if n.slot.flags.error {
        ResetTxnIDAndTime(now);
        singles := singles[InitTxn := Rearmed(n)];
        next := Some(Single(InitTxn));
      } else {
        txnEntry := n.slot.txn;
        txnId := txnEntry.txId;
        result.SetFinished();
        next := None;
      }
    }

    /** ReadDataStoreOperation::NextImpl: an error, a missing record (null) or the record read. */
    method NextReadDataStore() returns (next: Option<Op>)
      requires Valid() && result.request != null
      modifies result, result.request
      ensures Valid() && next == None && result.request == old(result.request) && result.request.finished
      ensures var n := singles[Kind.ReadDataStore];
              result.State() == if n.slot.flags.error then old(result.State()).(isError := true)
                                else if n.slot.record.None? then old(result.State()).(isNull := true)
                                else old(result.State()).(record := n.slot.record)
    {
      var n := singles[Kind.ReadDataStore];
      if n.slot.flags.error {
        result.SetError();
      } else if n.slot.record.None? {
        result.SetNull();
      } else {
        result.SetRecord(n.slot.record);
      }
      next := None;
    }

    /**
     * Upload::NextImpl: a failed upload (the execution waiting for abort)
     * turns into an abort; otherwise SetCommitTs is reset and comes next.
     */
    method NextUpload() returns (next: Option<Op>)
      requires Valid()
      modifies this
      ensures Valid() && children == old(children) && CallsKept()
      ensures old(status) == WaitForAborting ==>
                next == None && State() == old(State()).(status := Aborting) && singles == old(singles)
      ensures old(status) != WaitForAborting ==>
                next == Some(Single(Kind.SetCommitTs)) && State() == old(State())
                && singles == old(singles)[Kind.SetCommitTs := Rearmed(old(singles[Kind.SetCommitTs]))]
    {
      if status == WaitForAborting {
        status := Aborting;
        next := None;
      } else {
        singles := singles[Kind.SetCommitTs := Rearmed(singles[Kind.SetCommitTs])];
        next := Some(Single(Kind.SetCommitTs));
      }
    }

    /**
     * UploadVersionEntry::NextImpl: an error makes the execution wait for
     * abort; otherwise the write entry needs post-processing and the
     * writers' maximum commit timestamp rises to the one returned.
     */
    method NextUploadVersionEntry(i: nat) returns (next: Option<Op>)
      requires Valid()
      modifies this, localState.writeSet
      ensures Valid() && next == None && NodesKept() && CallsKept()
      ensures var n := old(Get(Child(UploadVersionEntry, i)));
              if n.slot.flags.error then
                State() == old(State()).(status := WaitForAborting) && WritePoolKept()
              else
                State() == old(State()).(maxWritersTs := Operations.Max(old(maxWritersTs), n.slot.ts))
                && localState.writeSet.slots == MarkedForPostProcessing(old(localState.writeSet.slots), n.target)
                && localState.writeSet.popIndex == old(localState.writeSet.popIndex)
    {
      var n := Get(Child(UploadVersionEntry, i));
      if n.slot.flags.error {
        status := WaitForAborting;
      } else {
        if n.target < localState.writeSet.capacity {
          var s := localState.writeSet.slots[n.target];
          localState.writeSet.Update(n.target, s.(entry := s.entry.(needPostProcessing := true)));
        }
        maxWritersTs := Operations.Max(maxWritersTs, n.slot.ts);
      }
      next := None;
    }

    /**
     * SetCommitTsOperation::NextImpl: an error or a negative timestamp
     * aborts; otherwise the returned timestamp becomes the commit timestamp
     * and Validate, reset to the reads no write is based on, comes next.
     */
    method NextSetCommitTs() returns (next: Option<Op>)
      requires Valid()
      modifies this, clock
      ensures Valid() && children == old(children) && CallsKept()
      ensures var n := old(singles[Kind.SetCommitTs]);
              if n.slot.flags.error || n.slot.ts < 0 then
                next == None && State() == old(State()).(status := Aborting) && singles == old(singles)
                && clock.State() == old(clock.State())
              else
                next == Some(Single(Validate)) && State() == old(State()).(commitTs := n.slot.ts)
                && clock.Valid() && clock.State() == SetTimeStep(old(clock.State()), n.slot.ts)
                && singles == old(singles)[Validate := old(singles[Validate]).(indices := IndicesWhere(localState.readSet.Contents(), NotUpdated))]
    {
      var n := singles[Kind.SetCommitTs];
      if n.slot.flags.error || n.slot.ts < 0 {
        status := Aborting;
        next := None;
      } else {
        SetCommitTs(n.slot.ts);
        var indices := Collect(localState.readSet.Contents(), NotUpdated);
        singles := singles[Validate := singles[Validate].(indices := indices)];
        next := Some(Single(Validate));
      }
    }

    /** Validate::NextImpl: a failed validation aborts; otherwise WriteToLog is reset and comes next. */
    method NextValidate() returns (next: Option<Op>)
      requires Valid()
      modifies this
      ensures Valid() && children == old(children) && CallsKept()
      ensures old(status) == WaitForAborting ==>
                next == None && State() == old(State()).(status := Aborting) && singles == old(singles)
      ensures old(status) != WaitForAborting ==>
                next == Some(Single(WriteToLog)) && State() == old(State())
                && singles == old(singles)[WriteToLog := Unfinished(old(singles[WriteToLog]))]
    {
      if status == WaitForAborting {
        status := Aborting;
        next := None;
      } else {
        singles := singles[WriteToLog := Unfinished(singles[WriteToLog])];
        next := Some(Single(WriteToLog));
      }
    }

    /**
     * UpdateReadEntryMaxCommitTs::NextImpl: unless the handler failed, the
     * read counter no longer needs releasing; then the reread version
     * decides: wait for abort, push the locking transaction's lower bound
     * through this child's PushConflictTxnCommitTsLowerBound, or pass.
     */
    method NextUpdateReadEntryMaxCommitTs(i: nat) returns (next: Option<Op>)
      requires Valid()
      modifies this, localState.readSet
      ensures Valid() && CallsKept() && singles == old(singles)
      ensures var n := old(Get(Child(UpdateReadEntryMaxCommitTs, i)));
              && (n.slot.flags.error ==> ReadPoolKept())
              && (!n.slot.flags.error ==> localState.readSet.slots == Released(old(localState.readSet.slots), n.target)
                                          && localState.readSet.popIndex == old(localState.readSet.popIndex))
              && match RereadVerdictFor(n.slot.flags.error, n.slot.reread, old(commitTs))
                 case RereadAbort =>
                   next == None && State() == old(State()).(status := WaitForAborting) && children == old(children)
                 case PushLowerBound(t) =>
                   next == Some(Child(PushConflictTxnCommitTsLowerBound, n.index)) && State() == old(State())
                   && children == old(children)[PushConflictTxnCommitTsLowerBound :=
                        Pushed(old(children)[PushConflictTxnCommitTsLowerBound], n.index, t)]
                 case RereadValid =>
                   next == None && State() == old(State()) && children == old(children)
    {
      var n := Get(Child(UpdateReadEntryMaxCommitTs, i));
      if n.slot.flags.error {
        status := WaitForAborting;
        return None;
      }
      ReleaseReadEntry(n.target);
      match RereadVerdictFor(false, n.slot.reread, commitTs)
      case RereadAbort =>
        status := WaitForAborting;
        next := None;
      case PushLowerBound(t) =>
        children := children[PushConflictTxnCommitTsLowerBound := Pushed(children[PushConflictTxnCommitTsLowerBound], n.index, t)];
        next := Some(Child(PushConflictTxnCommitTsLowerBound, n.index));
      case RereadValid =>
        next := None;
    }

    /**
     * PushConflictTxnCommitTsLowerBound::NextImpl: the execution waits for
     * abort when the handler failed or the conflicting transaction has (or
     * proposed) a commit timestamp at or below ours.
     */
    method NextPushConflictTxnCommitTsLowerBound(i: nat) returns (next: Option<Op>)
      requires Valid()
      modifies this
      ensures Valid() && next == None && NodesKept() && CallsKept()
      ensures var n := old(Get(Child(PushConflictTxnCommitTsLowerBound, i)));
              State() == if ConflictAborts(n.slot.flags.error, n.slot.txn, old(commitTs))
                         then old(State()).(status := WaitForAborting) else old(State())
    {
      var n := Get(Child(PushConflictTxnCommitTsLowerBound, i));
      if ConflictAborts(n.slot.flags.error, n.slot.txn, commitTs) {
        status := WaitForAborting;
      }
      next := None;
    }

    /** WriteToLog::NextImpl: UpdateTxnStatusToCommit is reset and comes next. */
    method NextWriteToLog() returns (next: Option<Op>)
      requires Valid()
      modifies this
      ensures Valid() && children == old(children) && CallsKept() && State() == old(State())
      ensures next == Some(Single(UpdateTxnStatusToCommit))
      ensures singles == old(singles)[UpdateTxnStatusToCommit := Rearmed(old(singles[UpdateTxnStatusToCommit]))]
    {
      singles := singles[UpdateTxnStatusToCommit := Rearmed(singles[UpdateTxnStatusToCommit])];
      next := Some(Single(UpdateTxnStatusToCommit));
    }

    /**
     * UpdateTxnStatusToCommit::NextImpl and UpdateTxnStatusToAbort::NextImpl:
     * a failed status update needs manual recovery; otherwise the request
     * reports the final status and the post-processing parent, reset to
     * the write entries whose version was uploaded, comes next.
     */
    method NextUpdateTxnStatus(k: Kind) returns (next: Option<Op>)
      requires Valid() && result.request != null
      requires k == UpdateTxnStatusToCommit || k == UpdateTxnStatusToAbort
      modifies this, result, result.request
      ensures Valid() && children == old(children) && CallsKept() && result.request == old(result.request)
      ensures var after := if k == UpdateTxnStatusToCommit then PostProcessingAfterCommit else PostProcessingAfterAbort;
              var final := if k == UpdateTxnStatusToCommit then Committed else Aborted;
              if old(singles[k]).slot.flags.error then
                next == None && State() == old(State()).(fatal := true) && singles == old(singles)
                && result.State() == old(result.State())
              else
                next == Some(Single(after)) && State() == old(State())
                && result.State() == old(result.State()).(status := final) && result.request.finished
                && singles == old(singles)[after := old(singles[after]).(indices := IndicesWhere(localState.writeSet.Contents(), NeedsPostProcessing))]
    {
      var after := if k == UpdateTxnStatusToCommit then PostProcessingAfterCommit else PostProcessingAfterAbort;
      if singles[k].slot.flags.error {
        fatal := true;
        next := None;
      } else {
        result.SetStatus(if k == UpdateTxnStatusToCommit then Committed else Aborted);
        var indices := Collect(localState.writeSet.Contents(), NeedsPostProcessing);
        singles := singles[after := singles[after].(indices := indices)];
        next := Some(Single(after));
      }
    }

    /**
     * PostProcessingAfterCommit::NextImpl and ReleaseReadCounter::NextImpl:
     * the transaction is committed (respectively aborted) and finished.
     */
    method NextFinish(final: TxnStatus) returns (next: Option<Op>)
      requires Valid()
      modifies this
      ensures Valid() && next == None && NodesKept() && CallsKept()
      ensures State() == old(State()).(status := final, finished := true)
    {
      status := final;
      finished := true;
      next := None;
    }

    /**
     * PostProcessingCommitEntryAfterCommit::NextImpl: a failed commit needs
     * manual recovery; otherwise the read entry the write is based on no
     * longer needs its counter released.
     */
    method NextCommitEntry(i: nat) returns (next: Option<Op>)
      requires Valid()
      modifies this, localState.readSet
      ensures Valid() && next == None && NodesKept() && CallsKept()
      ensures var n := old(Get(Child(PostProcessingCommitEntryAfterCommit, i)));
              var base := old(WriteSlot(n.target)).entry.readEntry;
              if n.slot.flags.error then State() == old(State()).(fatal := true) && ReadPoolKept()
              else State() == old(State())
                   && localState.readSet.slots == (if base.Some? then Released(old(localState.readSet.slots), base.value) else old(localState.readSet.slots))
                   && localState.readSet.popIndex == old(localState.readSet.popIndex)
    {
      var n := Get(Child(PostProcessingCommitEntryAfterCommit, i));
      if n.slot.flags.error {
        fatal := true;
      } else {
        var base := WriteSlot(n.target).entry.readEntry;
        if base.Some? {
          ReleaseReadEntry(base.value);
        }
      }
      next := None;
    }

    /** PostProcessingAfterAbort::NextImpl: ReleaseReadCounter, reset to the reads still holding a counter, comes next. */
    method NextPostProcessingAfterAbort() returns (next: Option<Op>)
      requires Valid()
      modifies this
      ensures Valid() && children == old(children) && CallsKept() && State() == old(State())
      ensures next == Some(Single(ReleaseReadCounter))
      ensures singles == old(singles)[ReleaseReadCounter := old(singles[ReleaseReadCounter]).(indices := IndicesWhere(localState.readSet.Contents(), NeedsRelease))]
    {
      var indices := Collect(localState.readSet.Contents(), NeedsRelease);
      singles := singles[ReleaseReadCounter := singles[ReleaseReadCounter].(indices := indices)];
      next := Some(Single(ReleaseReadCounter));
    }

    /**
     * PostProcessingDeleteEntryAfterAbort::NextImpl: a failed delete needs
     * manual recovery; otherwise the base read entry's counter is marked
     * released, but only when that read entry needs post-processing.
     */
    method NextDeleteEntry(i: nat) returns (next: Option<Op>)
      requires Valid()
      modifies this, localState.readSet
      ensures Valid() && next == None && NodesKept() && CallsKept()
      ensures var n := old(Get(Child(PostProcessingDeleteEntryAfterAbort, i)));
              var base := old(WriteSlot(n.target)).entry.readEntry;
              if n.slot.flags.error then State() == old(State()).(fatal := true) && ReadPoolKept()
              else State() == old(State())
                   && localState.readSet.slots == (if base.Some? && old(ReadSlot(base.value)).entry.needPostProcessing
                                                   then Released(old(localState.readSet.slots), base.value) else old(localState.readSet.slots))
                   && localState.readSet.popIndex == old(localState.readSet.popIndex)
    {
      var n := Get(Child(PostProcessingDeleteEntryAfterAbort, i));
      if n.slot.flags.error {
        fatal := true;
      } else {
        var base := WriteSlot(n.target).entry.readEntry;
        if base.Some? && ReadSlot(base.value).entry.needPostProcessing {
          ReleaseReadEntry(base.value);
        }
      }
      next := None;
    }

    /** ReleaseReadCounterForEachEntry::NextImpl: a failed release needs manual recovery; otherwise the counter is released. */
    method NextReleaseForEach(i: nat) returns (next: Option<Op>)
      requires Valid()
      modifies this, localState.readSet
      ensures Valid() && next == None && NodesKept() && CallsKept()
      ensures var n := old(Get(Child(ReleaseReadCounterForEachEntry, i)));
              if n.slot.flags.error then State() == old(State()).(fatal := true) && ReadPoolKept()
              else State() == old(State()) && localState.readSet.slots == Released(old(localState.readSet.slots), n.target)
                   && localState.readSet.popIndex == old(localState.readSet.popIndex)
    {
      var n := Get(Child(ReleaseReadCounterForEachEntry, i));
      if n.slot.flags.error {
        fatal := true;
      } else {
        ReleaseReadEntry(n.target);
      }
      next := None;
    }

    // -------------------------------------------------------------------
    // Dispatch
    // -------------------------------------------------------------------

    /**
     * Invoke of a singleton whose CallImpl makes one call: the operation is
     * pushed, its move_to_next_ cleared, and the call issued.
     */
    method InvokeSingle(k: Kind)
      requires Valid() && result.request != null && CallOf(Single(k)).Some?
      modifies this
      ensures Valid()
      ensures singles == old(singles)[k := old(singles[k]).(moveToNext := false)] && children == old(children)
      ensures stack == old(stack) + [Some(Single(k))]
      ensures issued == old(issued) + [(Single(k), old(CallOf(Single(k))).value)]
      ensures State() == old(State()) && currentRequest == old(currentRequest)
    {
      stack := stack + [Some(Single(k))];
      singles := singles[k := singles[k].(moveToNext := false)];
      Issue(Single(k));
    }

    /**
     * TransactionOperation::Call of a singleton: move_to_next_ is cleared
     * and its CallImpl runs.
     */
    method CallSingle(k: Kind, now: int)
      requires Valid() && clock.Valid() && result.request != null
      modifies Repr, clock, result.request
      ensures Valid() && clock.Valid()
      ensures stack == old(stack) + CallPushes(Single(k), old(singles[k])) && CallsIssued(Single(k))
      ensures !singles[k].moveToNext
      ensures result.request == old(result.request) && currentRequest == old(currentRequest)
    {
      singles := singles[k := singles[k].(moveToNext := false)];
      assert ParentTargets(k, Get(Single(k))) == ParentTargets(k, old(Get(Single(k))));
      assert CallOf(Single(k)) == old(CallOf(Single(k)));
      CallImpl(k, now);
    }

    /**
     * CallImpl of a singleton. Insert and Upsert invoke the read outside
     * with deleted versions kept, Update and Delete apply their rule at
     * once, the fan-out parents call their children, and the others make
     * their one call.
     */
    method CallImpl(k: Kind, now: int)
      requires Valid() && clock.Valid() && result.request != null
      modifies Repr, clock, result.request
      ensures Valid() && clock.Valid()
      ensures stack == old(stack) + CallPushes(Single(k), old(singles[k])) && CallsIssued(Single(k))
      ensures singles[k].moveToNext == old(singles[k]).moveToNext
      ensures result.request == old(result.request) && currentRequest == old(currentRequest)
    {
      if k in {Insert, Upsert, Kind.Update, Kind.Delete} {
        CallWrite(k);
      } else if ChildFamily(k).Some? {
        CallParent(k);
      } else {
        CallOther(k, now);
      }
    }

    /** CallImpl of Insert, Upsert, Update and Delete. */
    method CallWrite(k: Kind)
      requires Valid() && result.request != null && k in {Insert, Upsert, Kind.Update, Kind.Delete}
      modifies Repr, result.request
      ensures Valid()
      ensures stack == old(stack) + CallPushes(Single(k), old(singles[k])) && CallsIssued(Single(k))
      ensures singles[k] == old(singles[k])
      ensures result.request == old(result.request) && currentRequest == old(currentRequest)
    {
      var n := singles[k];
      if k == Insert || k == Upsert {
        CallInsert(k);
      } else if k == Kind.Update {
        ApplyWriteRule(Kind.Update, n.table, n.key, n.record);
      } else if k == Kind.Delete {
        CallDelete();
      }
    }

    /**
     * InsertOperation::CallImpl and UpsertOperation::CallImpl: the read
     * outside is reset to the key, with deleted versions kept, and invoked.
     */
    method CallInsert(k: Kind)
      requires Valid() && result.request != null && (k == Insert || k == Upsert)
      modifies this, localState.readSet
      ensures Valid()
      ensures var n := old(singles[k]);
              && stack == old(stack) + [Some(Single(ReadOutside))]
              && issued == old(issued) + [(Single(ReadOutside), GetVersionList(n.table, n.key, commitTsLocal))]
              && singles[k] == n && singles[ReadOutside].table == n.table && singles[ReadOutside].key == n.key
              && singles[ReadOutside].isDeleted && singles[ReadOutside].target == old(localState.readSet.popIndex)
      ensures localState.readSet.popIndex == old(localState.readSet.popIndex) + 1
      ensures children == old(children) && State() == old(State()) && currentRequest == old(currentRequest)
    {
      var n := singles[k];
      ResetReadOutside(n.table, n.key, n.record, true);
      InvokeSingle(ReadOutside);
    }

    /** CallImpl of the singletons that make at most one call. */
    method CallOther(k: Kind, now: int)
      requires Valid() && clock.Valid()
      modifies this, clock
      ensures Valid() && clock.Valid()
      ensures stack == old(stack) && OwnCallIssued(k) && currentRequest == old(currentRequest)
      ensures singles[k].moveToNext == old(singles[k]).moveToNext
    {
      match k
      case SetCommitTs =>
        CallSetCommitTs(now);
      case WriteToLog =>
        CallWriteToLog();
      case InitTxn =>
        Issue(Single(k));
      case ReadOutside =>
        Issue(Single(k));
      case ReadDataStore =>
        Issue(Single(k));
      case UpdateTxnStatusToCommit =>
        Issue(Single(k));
      case UpdateTxnStatusToAbort =>
        Issue(Single(k));
      case _ =>
    }

    /**
     * CallImpl of the fan-out parents: Upload calls one child per write
     * entry in use; Validate grows the lower-bound pushes beside its
     * children; the others call one child per index they collected.
     */
    method CallParent(k: Kind)
      requires Valid() && result.request != null && ChildFamily(k).Some?
      modifies this
      ensures Valid()
      ensures var f := ChildFamily(k).value;
              var targets := ParentTargets(k, old(singles[k]));
              && stack == old(stack) + ChildPushes(f, |targets|)
              && children[f] == FannedOut(f, GrownTo(old(children)[f], |targets|), targets, old(WriteSlots()), old(txnId))
              && issued == old(issued) + FanOutCalls(f, children[f], |targets|, old(State()), old(ReadSlots()), old(WriteSlots()))
      ensures k == Validate ==>
                children[PushConflictTxnCommitTsLowerBound] == GrownTo(old(children)[PushConflictTxnCommitTsLowerBound], |old(singles[Validate]).indices|)
      ensures forall g: Family :: g != ChildFamily(k).value && !(k == Validate && g == PushConflictTxnCommitTsLowerBound) ==>
                children[g] == old(children)[g]
      ensures singles == old(singles) && State() == old(State()) && currentRequest == old(currentRequest)
    {
      var n := singles[k];
      var f := ChildFamily(k).value;
      if k == Upload {
        FanOut(f, Upto(n.size));
      } else {
        if k == Validate {
          Grow(PushConflictTxnCommitTsLowerBound, |n.indices|);
        }
        FanOut(f, n.indices);
      }
    }

    /**
     * TransactionOperation::Call of any node: move_to_next_ is cleared and
     * its CallImpl runs (a child's is its one handler call), pushing what
     * it invokes above the stack and issuing its calls.
     */
    method CallOperation(op: Op, now: int)
      requires Valid() && clock.Valid() && result.request != null
      modifies Repr, clock, result.request
      ensures Valid() && clock.Valid()
      ensures stack == old(stack) + CallPushes(op, old(Get(op))) && CallsIssued(op)
      ensures old(NodeAt(singles, children, op)).Some? ==> NodeAt(singles, children, op).Some? && !Get(op).moveToNext
      ensures result.request == old(result.request) && currentRequest == old(currentRequest)
    {
      match op
      case Single(k) =>
        CallSingle(k, now);
      case Child(_, _) =>
        ClearMoveToNext(op);
        Issue(op);
    }

    /** TransactionExecution::Call: the operation is pushed and called. */
    method Call(op: Op, now: int)
      requires Valid() && clock.Valid() && result.request != null
      modifies Repr, clock, result.request
      ensures Valid() && clock.Valid()
      ensures stack == old(stack) + [Some(op)] + CallPushes(op, old(Get(op))) && CallsIssued(op)
      ensures old(NodeAt(singles, children, op)).Some? ==> NodeAt(singles, children, op).Some? && !Get(op).moveToNext
      ensures result.request == old(result.request) && currentRequest == old(currentRequest)
    {
      stack := stack + [Some(op)];
      CallOperation(op, now);
    }

    /**
     * NextImpl of a singleton. Unless the step failed (the execution now
     * aborting, recovery fatal, or InitTxn retrying), the successor is the
     * next operation of its chain; any successor returned is that one or
     * the InitTxn retry. The node itself is kept, bar the retry's reset.
     */
    method NextSingle(k: Kind, now: int) returns (next: Option<Op>)
      requires Valid() && clock.Valid() && idGen.Valid() && result.request != null
      modifies Repr, clock, idGen, result.request
      ensures Valid() && clock.Valid() && idGen.Valid()
      ensures CallsKept() && result.request == old(result.request)
      ensures !fatal && status != Aborting && !(k == InitTxn && old(singles[InitTxn]).slot.flags.error) ==>
                next == (if SuccessorOnSuccess(k).Some? then Some(Single(SuccessorOnSuccess(k).value)) else None)
      ensures next.Some? ==> (k == InitTxn && next == Some(Single(InitTxn)))
                             || (SuccessorOnSuccess(k).Some? && next == Some(Single(SuccessorOnSuccess(k).value)))
      ensures singles[k] == if k == InitTxn && old(singles[InitTxn]).slot.flags.error then Rearmed(old(singles[k])) else old(singles[k])
    {
      if k in {InitTxn, ReadOutside, Insert, Upsert, Kind.Update, Kind.Delete, Kind.ReadDataStore} {
        next := NextRequestSingle(k, now);
      } else {
        next := NextChainSingle(k);
      }
    }

    /** NextImpl of the singletons a request runs: only a failed InitTxn has a successor, itself. */
    method NextRequestSingle(k: Kind, now: int) returns (next: Option<Op>)
      requires Valid() && clock.Valid() && idGen.Valid() && result.request != null
      requires k in {InitTxn, ReadOutside, Insert, Upsert, Kind.Update, Kind.Delete, Kind.ReadDataStore}
      modifies Repr, clock, idGen, result.request
      ensures Valid() && clock.Valid() && idGen.Valid()
      ensures CallsKept() && result.request == old(result.request)
      ensures var retry := k == InitTxn && old(singles[InitTxn]).slot.flags.error;
              && next == (if retry then Some(Single(InitTxn)) else None)
              && singles[k] == (if retry then Rearmed(old(singles[k])) else old(singles[k]))
    {
      var n := singles[k];
      match k
      case InitTxn =>
        next := NextInitTxn(now);
      case ReadOutside =>
        next := NextReadOutside();
      case Insert =>
        ApplyWriteRule(k, n.table, n.key, n.record);
        next := None;
      case Upsert =>
        ApplyWriteRule(k, n.table, n.key, n.record);
        next := None;
      case Update =>
        next := None;
      case Delete =>
        next := None;
      case ReadDataStore =>
        next := NextReadDataStore();
    }

    /**
     * NextImpl of the singletons of the commit and abort chains: unless the
     * step failed, the successor is the next operation of the chain, and
     * any successor returned is that one. The node itself is kept.
     */
    method NextChainSingle(k: Kind) returns (next: Option<Op>)
      requires Valid() && clock.Valid() && result.request != null
      requires k !in {InitTxn, ReadOutside, Insert, Upsert, Kind.Update, Kind.Delete, Kind.ReadDataStore}
      modifies this, clock, result, result.request
      ensures Valid() && CallsKept() && result.request == old(result.request)
      ensures clock.Valid()
      ensures !fatal && status != Aborting ==>
                next == (if SuccessorOnSuccess(k).Some? then Some(Single(SuccessorOnSuccess(k).value)) else None)
      ensures next.Some? ==> SuccessorOnSuccess(k).Some? && next == Some(Single(SuccessorOnSuccess(k).value))
      ensures singles[k] == old(singles[k])
    {
      match k
      case Upload =>
        next := NextUpload();
      case SetCommitTs =>
        next := NextSetCommitTs();
      case Validate =>
        next := NextValidate();
      case WriteToLog =>
        next := NextWriteToLog();
      case UpdateTxnStatusToCommit =>
        next := NextUpdateTxnStatus(k);
      case PostProcessingAfterCommit =>
        next := NextFinish(Committed);
      case UpdateTxnStatusToAbort =>
        next := NextUpdateTxnStatus(k);
      case PostProcessingAfterAbort =>
        next := NextPostProcessingAfterAbort();
      case ReleaseReadCounter =>
        next := NextFinish(Aborted);
    }

    /**
     * NextImpl of a fan-out child: only UpdateReadEntryMaxCommitTs has a
     * successor, the lower-bound push at its own index. The node is kept.
     */
    method NextChild(f: Family, i: nat) returns (next: Option<Op>)
      requires Valid()
      modifies this, localState.readSet, localState.writeSet
      ensures Valid() && CallsKept()
      ensures next.Some? ==> f == UpdateReadEntryMaxCommitTs
                             && next == Some(Child(PushConflictTxnCommitTsLowerBound, old(Get(Child(f, i))).index))
      ensures NodeAt(singles, children, Child(f, i)) == old(NodeAt(singles, children, Child(f, i)))
    {
      match f
      case UploadVersionEntry =>
        next := NextUploadVersionEntry(i);
      case UpdateReadEntryMaxCommitTs =>
        next := NextUpdateReadEntryMaxCommitTs(i);
      case PushConflictTxnCommitTsLowerBound =>
        next := NextPushConflictTxnCommitTsLowerBound(i);
      case PostProcessingCommitEntryAfterCommit =>
        next := NextCommitEntry(i);
      case PostProcessingDeleteEntryAfterAbort =>
        next := NextDeleteEntry(i);
      case ReleaseReadCounterForEachEntry =>
        next := NextReleaseForEach(i);
    }

    /**
     * TransactionOperation::Next: move_to_next_ and has_next_ are set and
     * NextImpl runs; has_next_ ends up false exactly when no successor is
     * returned (unless NextImpl threw).
     */
    method NextOp(op: Op, now: int) returns (next: Option<Op>)
      requires Valid() && clock.Valid() && idGen.Valid() && result.request != null
      modifies Repr, clock, idGen, result.request
      ensures Valid() && clock.Valid() && idGen.Valid()
      ensures CallsKept() && result.request == old(result.request)
      ensures NodeAt(singles, children, op).Some? <==> old(NodeAt(singles, children, op)).Some?
      ensures NodeAt(singles, children, op).Some? ==> Get(op).moveToNext && (Get(op).hasNext <==> fatal || next.Some?)
      ensures op.Single? && !fatal && status != Aborting && !(op.kind == InitTxn && old(singles[InitTxn]).slot.flags.error) ==>
                next == (if SuccessorOnSuccess(op.kind).Some? then Some(Single(SuccessorOnSuccess(op.kind).value)) else None)
      ensures op.Single? && next.Some? ==> (op.kind == InitTxn && next == Some(Single(InitTxn)))
                                           || (SuccessorOnSuccess(op.kind).Some? && next == Some(Single(SuccessorOnSuccess(op.kind).value)))
      ensures op.Child? && next.Some? ==> op.family == UpdateReadEntryMaxCommitTs
                                          && next == Some(Child(PushConflictTxnCommitTsLowerBound, old(Get(op)).index))
    {
      PutNode(op, Get(op).(moveToNext := true, hasNext := true));
      match op {
        case Single(k) =>
          next := NextSingle(k, now);
        case Child(f, i) =>
          next := NextChild(f, i);
      }
      if !fatal && next.None? {
        PutNode(op, Get(op).(hasNext := false));
      }
    }

    // -------------------------------------------------------------------
    // Driving the execution
    // -------------------------------------------------------------------

    /**
     * One pass of MoveForward over the call stack, from the top down: each
     * finished operation is replaced by its successor, which is called;
     * a step that leaves the execution aborting stops the pass. A throw
     * (fatal) ends the pass at once.
     */
    method Pass(now: int)
      requires Valid() && clock.Valid() && idGen.Valid() && |stack| > 0
      modifies Repr, clock, idGen, result.request
      ensures Valid() && clock.Valid() && idGen.Valid() && |stack| >= |old(stack)|
      ensures result.request == old(result.request) && currentRequest == old(currentRequest)
      ensures forall j :: 0 <= j < |old(stack)| && old(stack)[j].None? ==> stack[j].None?
    {
      var i := |stack|;
      while i > 0
        invariant 0 <= i <= |stack| && |stack| >= |old(stack)|
        invariant Valid() && clock.Valid() && idGen.Valid()
        invariant result.request == old(result.request) && currentRequest == old(currentRequest)
        invariant forall j :: 0 <= j < |old(stack)| && old(stack)[j].None? ==> stack[j].None?
        decreases i
      {
        i := i - 1;
        var stop := Visit(i, now);
        if stop {
          return;
        }
      }
    }

    /**
     * The visit of Pass to position i: a finished operation there is
     * replaced by its successor, which is called. The pass stops when the
     * step threw, or returned no successor and left the execution aborting.
     * An empty position, or one whose operation has not finished, is
     * passed over and the execution is left as it was.
     */
    method Visit(i: nat, now: int) returns (stop: bool)
      requires Valid() && clock.Valid() && idGen.Valid() && i < |stack|
      modifies Repr, clock, idGen, result.request
      ensures Valid() && clock.Valid() && idGen.Valid() && |stack| >= |old(stack)|
      ensures result.request == old(result.request) && currentRequest == old(currentRequest)
      ensures forall j :: 0 <= j < |old(stack)| && old(stack)[j].None? ==> stack[j].None?
      ensures old(stack[i]).None? || !old(IsOpFinished(stack[i].value)) ==>
                !stop && stack == old(stack) && issued == old(issued) && State() == old(State())
                && NodesKept() && ReadPoolKept() && WritePoolKept() && clock.State() == old(clock.State())
      ensures stop ==> fatal || (stack[i].None? && status == Aborting)
    {
      stop := false;
      var entry := stack[i];
      if entry.Some? && IsOpFinished(entry.value) {
        stop := Succeed(i, now);
      }
    }

    /** Visit at a finished operation: its successor takes its place and is called. */
    method Succeed(i: nat, now: int) returns (stop: bool)
      requires Valid() && clock.Valid() && idGen.Valid() && i < |stack| && stack[i].Some?
      modifies Repr, clock, idGen, result.request
      ensures Valid() && clock.Valid() && idGen.Valid() && |stack| >= |old(stack)|
      ensures result.request == old(result.request) && currentRequest == old(currentRequest)
      ensures forall j :: 0 <= j < |old(stack)| && old(stack)[j].None? ==> stack[j].None?
      ensures stop ==> fatal || (stack[i].None? && status == Aborting)
    {
      stop := false;
      var next := NextOp(stack[i].value, now);
      if fatal {
        return true;
      }
      stack := stack[i := next];
      if next.Some? {
        ghost var below := stack;
        CallOperation(next.value, now);
        assert stack[..|below|] == below;
      } else if status == Aborting {
        stop := true;
      }
    }

    /**
     * MoveForward: after a pass, an aborting execution is marked aborted
     * and its abort is called; otherwise the finished entries at the top of
     * the stack are popped. The execution is idle when the stack is empty.
     * `passed` is the stack as the pass left it and `tookOver` says whether
     * the abort took over.
     */
    method MoveForward(now: int) returns (idle: bool, ghost passed: seq<Option<Op>>, ghost tookOver: bool)
      requires Valid() && clock.Valid() && idGen.Valid()
      modifies Repr, clock, idGen, result.request, currentRequest
      ensures Valid() && clock.Valid() && idGen.Valid()
      ensures idle <==> stack == []
      ensures old(stack) == [] ==> stack == [] && State() == old(State()) && issued == old(issued) && !tookOver
      ensures old(stack) != [] ==> |passed| >= |old(stack)|
      ensures old(stack) != [] ==> forall j :: 0 <= j < |old(stack)| && old(stack)[j].None? ==> passed[j].None?
      ensures tookOver ==> !fatal && status == Aborted && stack == [Some(Single(UpdateTxnStatusToAbort))]
      ensures tookOver ==> |issued| > 0 && issued[|issued| - 1] == (Single(UpdateTxnStatusToAbort), UpdateTxnStatus(txnId, Aborted))
      ensures tookOver ==> result.State() == Requests.FreshResultState(None) && result.request == currentRequest
      ensures old(stack) != [] && !fatal && !tookOver ==> stack == Trimmed(passed) && status != Aborting
      ensures currentRequest == old(currentRequest)
      ensures result.request == old(result.request) || result.request == currentRequest
    {
      tookOver := false;
      passed := stack;
      if stack == [] {
        return true, passed, tookOver;
      }
      Pass(now);
      passed := stack;
      if fatal {
        return stack == [], passed, tookOver;
      }
      if status == Aborting {
        status := Aborted;
        if currentRequest == null {
          // Abort would bind the result to a null request: a crash.
          fatal := true;
          return stack == [], passed, tookOver;
        }
        Abort();
        tookOver := true;
      } else {
        PopFinished();
      }
      idle := stack == [];
    }

    // -------------------------------------------------------------------
    // Requests
    // -------------------------------------------------------------------

    /**
     * Abort(): the stack is cleared, the result reset to the current
     * request, and UpdateTxnStatusToAbort, reset, is called.
     */
    method Abort()
      requires Valid() && currentRequest != null
      modifies this, result, currentRequest
      ensures Valid()
      ensures stack == [Some(Single(UpdateTxnStatusToAbort))]
      ensures issued == old(issued) + [(Single(UpdateTxnStatusToAbort), UpdateTxnStatus(txnId, Aborted))]
      ensures singles == old(singles)[UpdateTxnStatusToAbort := Rearmed(old(singles[UpdateTxnStatusToAbort])).(moveToNext := false)]
      ensures children == old(children) && State() == old(State()) && currentRequest == old(currentRequest)
      ensures result.State() == Requests.FreshResultState(None) && result.request == currentRequest
    {
      stack := [];
      result.ResetWithoutRecord(currentRequest);
      singles := singles[UpdateTxnStatusToAbort := Rearmed(singles[UpdateTxnStatusToAbort])];
      InvokeSingle(UpdateTxnStatusToAbort);
    }

    /** Begin(type): InitTxn, reset, is called with the entry and the local timestamp. */
    method Begin(t: int)
      requires Valid() && currentRequest != null
      modifies this, result, currentRequest
      ensures Valid()
      ensures stack == old(stack) + [Some(Single(InitTxn))]
      ensures issued == old(issued) + [(Single(InitTxn), NewTxn(txnEntry, commitTsLocal, kMaxTxnExecutionTimeMS))]
      ensures singles == old(singles)[InitTxn := Rearmed(old(singles[InitTxn])).(moveToNext := false)]
      ensures children == old(children) && State() == old(State()).(typeArg := t) && currentRequest == old(currentRequest)
      ensures result.State() == Requests.FreshResultState(None) && result.request == currentRequest
    {
      result.ResetWithoutRecord(currentRequest);
      typeArg := t;
      singles := singles[InitTxn := Rearmed(singles[InitTxn])];
      InvokeSingle(InitTxn);
    }

    /**
     * Read(table, key, record, is_deleted): the read outside, reset to the
     * arguments and a new read slot, asks the version store for the key's
     * versions at the local timestamp.
     */
    method Read(table: Text, key: Key, record: Option<Record>, isDeleted: bool)
      requires Valid() && currentRequest != null
      modifies this, localState.readSet, result, currentRequest
      ensures Valid()
      ensures stack == old(stack) + [Some(Single(ReadOutside))]
      ensures issued == old(issued) + [(Single(ReadOutside), GetVersionList(table, key, commitTsLocal))]
      ensures singles[ReadOutside].table == table && singles[ReadOutside].key == key && singles[ReadOutside].record == record
      ensures singles[ReadOutside].isDeleted == isDeleted && singles[ReadOutside].target == old(localState.readSet.popIndex)
      ensures localState.readSet.popIndex == old(localState.readSet.popIndex) + 1
      ensures children == old(children) && State() == old(State()) && currentRequest == old(currentRequest)
      ensures result.State() == Requests.FreshResultState(record) && result.request == currentRequest
    {
      result.Reset(record, currentRequest);
      ResetReadOutside(table, key, record, isDeleted);
      InvokeSingle(ReadOutside);
    }

    /**
     * ReadDataStore(table, key, record, driver, need_to_read): the data
     * store is asked for the record when need_to_read holds; otherwise the
     * request finishes at once.
     */
    method ReadDataStore(table: Text, key: Key, record: Option<Record>, needToRead: bool)
      requires Valid() && currentRequest != null
      modifies this, result, currentRequest
      ensures Valid() && children == old(children) && State() == old(State()) && currentRequest == old(currentRequest)
      ensures result.State() == Requests.FreshResultState(record) && result.request == currentRequest
      ensures needToRead ==> stack == old(stack) + [Some(Single(Kind.ReadDataStore))]
                             && issued == old(issued) + [(Single(Kind.ReadDataStore), ReadRecord(table, key))]
                             && var n := old(singles[Kind.ReadDataStore]);
                                singles == old(singles)[Kind.ReadDataStore := n.(table := table, key := key, record := record, moveToNext := false,
                                                                            slot := n.slot.(flags := ResetFlags(), record := record))]
      ensures !needToRead ==> stack == old(stack) && issued == old(issued) && singles == old(singles) && currentRequest.finished
    {
      result.Reset(record, currentRequest);
      if needToRead {
        var n := singles[Kind.ReadDataStore];
        singles := singles[Kind.ReadDataStore := n.(table := table, key := key, record := record,
                                               slot := n.slot.(flags := ResetFlags(), record := record))];
        InvokeSingle(Kind.ReadDataStore);
      } else {
        result.SetFinished();
      }
    }

    /**
     * Insert and Upsert: the operation, reset to the arguments, is pushed
     * and invokes the read outside of the key with deleted versions kept;
     * the write itself happens in its Next step.
     */
    method InsertOrUpsert(k: Kind, table: Text, key: Key, record: Option<Record>)
      requires Valid() && currentRequest != null && (k == Insert || k == Upsert)
      modifies this, localState.readSet, result, currentRequest
      ensures Valid()
      ensures stack == old(stack) + [Some(Single(k)), Some(Single(ReadOutside))]
      ensures issued == old(issued) + [(Single(ReadOutside), GetVersionList(table, key, commitTsLocal))]
      ensures singles[k] == old(singles[k]).(table := table, key := key, record := record, moveToNext := false)
      ensures singles[ReadOutside].table == table && singles[ReadOutside].key == key && singles[ReadOutside].isDeleted
      ensures singles[ReadOutside].target == old(localState.readSet.popIndex)
      ensures localState.readSet.popIndex == old(localState.readSet.popIndex) + 1
      ensures children == old(children) && State() == old(State()) && currentRequest == old(currentRequest)
      ensures result.State() == Requests.FreshResultState(record) && result.request == currentRequest
    {
      result.Reset(record, currentRequest);
      singles := singles[k := singles[k].(table := table, key := key, record := record, moveToNext := false)];
      stack := stack + [Some(Single(k))];
      CallInsert(k);
    }

    /**
     * Update(table, key, record): the update is pushed and applies its
     * rule at once against the newest read entry for the key.
     */
    method Update(table: Text, key: Key, record: Option<Record>)
      requires Valid() && currentRequest != null
      modifies this, localState.readSet, localState.writeSet, result, currentRequest
      ensures Valid() && result.request == currentRequest && currentRequest == old(currentRequest)
      ensures stack == old(stack) + [Some(Single(Kind.Update))] && issued == old(issued)
      ensures singles == old(singles)[Kind.Update := old(singles[Kind.Update]).(table := table, key := key, record := record, moveToNext := false)]
      ensures children == old(children) && State() == old(State())
      ensures var r := FindNewest(old(ReadContents()), table, key);
              WriteApplied(table, key, record, r, WriteRule(Kind.Update, EntryAt(old(ReadContents()), r)))
              && result.State() == WriteOutcome(Requests.FreshResultState(None), WriteRule(Kind.Update, EntryAt(old(ReadContents()), r)))
    {
      result.ResetWithoutRecord(currentRequest);
      singles := singles[Kind.Update := singles[Kind.Update].(table := table, key := key, record := record, moveToNext := false)];
      stack := stack + [Some(Single(Kind.Update))];
      ApplyWriteRule(Kind.Update, table, key, record);
    }

    /**
     * Delete(table, key): the delete is pushed and applies its rule at once
     * against the newest write and read entries for the key.
     */
    method Delete(table: Text, key: Key)
      requires Valid() && currentRequest != null
      modifies this, localState.readSet, localState.writeSet, result, currentRequest
      ensures Valid() && result.request == currentRequest && currentRequest == old(currentRequest)
      ensures stack == old(stack) + [Some(Single(Kind.Delete))] && issued == old(issued)
      ensures singles == old(singles)[Kind.Delete := old(singles[Kind.Delete]).(table := table, key := key, moveToNext := false)]
      ensures children == old(children) && State() == old(State())
      ensures var w := FindNewest(old(WriteContents()), table, key);
              var r := FindNewest(old(ReadContents()), table, key);
              var choice := DeleteRule(EntryAt(old(WriteContents()), w), EntryAt(old(ReadContents()), r));
              DeleteApplied(table, key, w, r, choice) && result.State() == DeleteOutcome(Requests.FreshResultState(None), choice)
    {
      result.ResetWithoutRecord(currentRequest);
      singles := singles[Kind.Delete := singles[Kind.Delete].(table := table, key := key, moveToNext := false)];
      stack := stack + [Some(Single(Kind.Delete))];
      CallDelete();
    }

    /**
     * Commit(): Upload, reset to the write set in use, is pushed and calls
     * one UploadVersionEntry per write entry.
     */
    method Commit()
      requires Valid() && currentRequest != null
      modifies this, result, currentRequest
      ensures Valid() && result.request == currentRequest && currentRequest == old(currentRequest)
      ensures result.State() == Requests.FreshResultState(None)
      ensures var size := localState.writeSet.popIndex;
              && singles == old(singles)[Upload := old(singles[Upload]).(size := size, moveToNext := false)]
              && stack == old(stack) + [Some(Single(Upload))] + ChildPushes(UploadVersionEntry, size)
              && children[UploadVersionEntry] == FannedOut(UploadVersionEntry, GrownTo(old(children)[UploadVersionEntry], size),
                                                           Upto(size), WriteSlots(), txnId)
              && issued == old(issued) + FanOutCalls(UploadVersionEntry, children[UploadVersionEntry], size, State(), ReadSlots(), WriteSlots())
      ensures forall g: Family :: g != UploadVersionEntry ==> children[g] == old(children)[g]
      ensures State() == old(State())
    {
      result.ResetWithoutRecord(currentRequest);
      var size := localState.GetWriteSetSize();
      singles := singles[Upload := singles[Upload].(size := size, moveToNext := false)];
      stack := stack + [Some(Single(Upload))];
      FanOut(UploadVersionEntry, Upto(size));
    }

    /**
     * Reset(): the pools are emptied, the current request dropped, and the
     * transaction starts over ongoing, without commit timestamps, with a new
     * id and a fresh local timestamp.
     */
    method Reset(now: int)
      requires Valid() && clock.Valid() && idGen.Valid()
      modifies this, localState.readSet, localState.writeSet, clock, idGen
      ensures Valid() && clock.Valid() && idGen.Valid()
      ensures localState.readSet.popIndex == 0 && localState.writeSet.popIndex == 0
      ensures localState.readSet.slots == old(localState.readSet.slots) && localState.writeSet.slots == old(localState.writeSet.slots)
      ensures currentRequest == null
      ensures txnId == idGen.id && idGen.id == idGen.start + Step(idGen.end - idGen.start, old(idGen.id) - idGen.start)
      ensures (commitTsLocal, clock.State()) == GetTimeStep(old(clock.State()), now)
      ensures State() == old(State()).(finished := false, status := Ongoing, commitTs := -1, maxWritersTs := -1, txnId := txnId,
                                       commitTsLocal := commitTsLocal, txnEntry := TxEntries.Reset(txnId, commitTsLocal))
      ensures NodesKept() && stack == old(stack) && issued == old(issued)
    {
      localState.Reset();
      currentRequest := null;
      finished := false;
      status := Ongoing;
      commitTs := -1;
      maxWritersTs := -1;
      ResetTxnIDAndTime(now);
    }

    /** The pop loop of MoveForward: empty entries at the top of the stack are removed. */
    method PopFinished()
      requires Valid()
      modifies this
      ensures Valid() && stack == Trimmed(old(stack))
      ensures NodesKept() && issued == old(issued) && currentRequest == old(currentRequest) && State() == old(State())
    {
      while |stack| > 0 && stack[|stack| - 1].None?
        invariant Valid() && Trimmed(stack) == Trimmed(old(stack))
        invariant NodesKept() && issued == old(issued) && currentRequest == old(currentRequest) && State() == old(State())
        decreases |stack|
      {
        stack := stack[..|stack| - 1];
      }
    }

  }

  /** The stack without its trailing empty entries: what MoveForward pops. */
  function Trimmed(s: seq<Option<Op>>): (r: seq<Option<Op>>)
    ensures |r| <= |s| && r == s[..|r|]
    ensures r == [] || r[|r| - 1].Some?
    ensures forall j :: |r| <= j < |s| ==> s[j].None?
  {
    if s == [] || s[|s| - 1].Some? then s else Trimmed(s[..|s| - 1])
  }

  /** Slot i of a pool replaced by s, if the pool has a slot i. */
  function Filled<E>(slots: seq<Slot<E>>, i: nat, s: Slot<E>): seq<Slot<E>> {
    if i < |slots| then slots[i := s] else slots
  }

  /** Read slot i with need_release_ cleared. */
  function Released(slots: seq<Slot<ReadSetEntry>>, i: nat): seq<Slot<ReadSetEntry>> {
    if i < |slots| then slots[i := slots[i].(entry := slots[i].entry.(needRelease := false))] else slots
  }

  /** Write slot i with need_post_processing_ set. */
  function MarkedForPostProcessing(slots: seq<Slot<WriteSetEntry>>, i: nat): seq<Slot<WriteSetEntry>> {
    if i < |slots| then slots[i := slots[i].(entry := slots[i].entry.(needPostProcessing := true))] else slots
  }

  /** A singleton's Reset that only clears its handler result. */
  function Rearmed(n: Node): Node {
    n.(slot := n.slot.(flags := ResetFlags()))
  }

  /** WriteToLog::Reset: only is_finished_ is cleared. */
  function Unfinished(n: Node): Node {
    n.(slot := n.slot.(flags := n.slot.flags.(finished := false)))
  }

  /** PushConflictTxnCommitTsLowerBound::Reset(txn_id) of child j, if it exists. */
  function Pushed(nodes: seq<Node>, j: nat, txId: int): seq<Node> {
    if j < |nodes| then nodes[j := nodes[j].(slot := nodes[j].slot.(flags := ResetFlags()), txnId := txId)] else nodes
  }

  /** The logical contents of a pool, clamped to its slots. */
  function Prefix<E>(slots: seq<Slot<E>>, size: nat): seq<Slot<E>> {
    if size <= |slots| then slots[..size] else slots
  }

  /**
   * The call an operation's CallImpl makes, from its node, the execution's
   * scalars and the pools; None for the operations that call nobody.
   */
  function CallFor(op: Op, n: Node, sc: Scalars, readSlots: seq<Slot<ReadSetEntry>>,
                   writeSlots: seq<Slot<WriteSetEntry>>, writeSize: nat): Option<HandlerCall>
  {
    match op
    case Single(k) =>
      (match k
       case InitTxn => Some(NewTxn(sc.txnEntry, sc.commitTsLocal, kMaxTxnExecutionTimeMS))
       case ReadOutside => Some(GetVersionList(n.table, n.key, sc.commitTsLocal))
       case ReadDataStore => Some(ReadRecord(n.table, n.key))
       case SetCommitTs => Some(SetCommitTimestamp(sc.txnId, sc.commitTs))
       case WriteToLog => Some(AppendLog(sc.commitTs, Prefix(writeSlots, writeSize), sc.txnEntry))
       case UpdateTxnStatusToCommit => Some(UpdateTxnStatus(sc.txnId, Committed))
       case UpdateTxnStatusToAbort => Some(UpdateTxnStatus(sc.txnId, Aborted))
       case _ => None)
    case Child(f, _) =>
      Some(ChildCallFor(f, n, sc, readSlots, writeSlots))
  }

  /** The node child i of f holds once its parent has reset and called it. */
  function Prepared(f: Family, n: Node, i: nat, target: nat, writeSlots: seq<Slot<WriteSetEntry>>, txnId: int): Node {
    ResetChild(f, n, i, target, SlotAt(writeSlots, target, Slot(None, WriteSetEntries.Default())).entry, txnId).(moveToNext := false)
  }

  /**
   * The nodes after a fan-out over `targets`: child i is reset towards
   * targets[i]; children past the targets keep their state.
   */
  function FannedOut(f: Family, nodes: seq<Node>, targets: seq<nat>, writeSlots: seq<Slot<WriteSetEntry>>, txnId: int): seq<Node>
    requires |targets| <= |nodes|
  {
    seq(|nodes|, j requires 0 <= j < |nodes| =>
      if j < |targets| then Prepared(f, nodes[j], j, targets[j], writeSlots, txnId) else nodes[j])
  }

  /** The calls the first n children make, in order, from their nodes. */
  function FanOutCalls(f: Family, nodes: seq<Node>, n: nat, sc: Scalars, readSlots: seq<Slot<ReadSetEntry>>,
                       writeSlots: seq<Slot<WriteSetEntry>>): seq<(Op, HandlerCall)>
    requires n <= |nodes|
  {
    seq(n, i requires 0 <= i < n => (Child(f, i), ChildCallFor(f, nodes[i], sc, readSlots, writeSlots)))
  }

  /**
   * The loop of a fan-out parent's CallImpl over its targets: child i is
   * reset towards targets[i] and makes its call.
   */
  method PrepareChildren(f: Family, nodes: seq<Node>, targets: seq<nat>, sc: Scalars,
                         readSlots: seq<Slot<ReadSetEntry>>, writeSlots: seq<Slot<WriteSetEntry>>)
    returns (prepared: seq<Node>, calls: seq<(Op, HandlerCall)>)
    requires |targets| <= |nodes|
    ensures prepared == FannedOut(f, nodes, targets, writeSlots, sc.txnId)
    ensures calls == FanOutCalls(f, prepared, |targets|, sc, readSlots, writeSlots)
  {
    prepared := nodes;
    calls := [];
    var i := 0;
    while i < |targets|
      invariant 0 <= i <= |targets| && |prepared| == |nodes| && |calls| == i
      invariant forall j :: 0 <= j < i ==> prepared[j] == Prepared(f, nodes[j], j, targets[j], writeSlots, sc.txnId)
      invariant forall j :: i <= j < |nodes| ==> prepared[j] == nodes[j]
      invariant forall j :: 0 <= j < i ==> calls[j] == (Child(f, j), ChildCallFor(f, prepared[j], sc, readSlots, writeSlots))
    {
      prepared := prepared[i := Prepared(f, nodes[i], i, targets[i], writeSlots, sc.txnId)];
      calls := calls + [(Child(f, i), ChildCallFor(f, prepared[i], sc, readSlots, writeSlots))];
      i := i + 1;
    }
    ghost var expected := FannedOut(f, nodes, targets, writeSlots, sc.txnId);
    assert |prepared| == |expected| && forall j :: 0 <= j < |prepared| ==> prepared[j] == expected[j];
    ghost var expectedCalls := FanOutCalls(f, prepared, |targets|, sc, readSlots, writeSlots);
    assert |calls| == |expectedCalls| && forall j :: 0 <= j < |calls| ==> calls[j] == expectedCalls[j];
  }

  /** A child vector grown to at least `count` nodes, the new ones fresh. */
  function GrownTo(nodes: seq<Node>, count: nat): seq<Node> {
    seq(if |nodes| < count then count else |nodes|, (j: int) requires 0 <= j => NodeOrBlank(nodes, j))
  }

  /** The call a child makes towards the pool slot it points at. */
  function ChildCallFor(f: Family, n: Node, sc: Scalars, readSlots: seq<Slot<ReadSetEntry>>,
                        writeSlots: seq<Slot<WriteSetEntry>>): HandlerCall
  {
    var r := SlotAt(readSlots, n.target, Slot(None, ReadSetEntries.Default()));
    var w := SlotAt(writeSlots, n.target, Slot(None, WriteSetEntries.Default()));
    match f
    case UploadVersionEntry => UploadVersion(w.key, n.versionEntry)
    case UpdateReadEntryMaxCommitTs => UpdateMaxCommitTsAndReread(r.key, r.entry.version, sc.commitTs)
    case PushConflictTxnCommitTsLowerBound => UpdateCommitLowerBound(n.txnId, sc.commitTs + 1)
    case PostProcessingCommitEntryAfterCommit =>
      CommitVersion(w.key, w.entry.version, sc.txnId, sc.commitTs, kMaxTimeStamp, kEmptyTxId, w.entry.record)
    case PostProcessingDeleteEntryAfterAbort => DeleteVersion(w.key, w.entry.version)
    case ReleaseReadCounterForEachEntry => ReleaseReadCount(r.key, r.entry.version)
  }

  /** The newest read entry a lookup found, as the entry itself. */
  function EntryAt<E>(contents: seq<Slot<E>>, r: Option<nat>): Option<E> {
    if r.Some? && r.value < |contents| then Some(contents[r.value].entry) else None
  }

  /** The rule of the write operation k. */
  function WriteRule(k: Kind, read: Option<ReadSetEntry>): WriteChoice {
    if k == Insert then InsertRule(read) else if k == Upsert then UpsertRule(read) else UpdateRule(read)
  }

  /** The pool positions a fan-out parent's CallImpl calls its children towards. */
  function ParentTargets(k: Kind, n: Node): (r: seq<nat>)
    ensures |r| == ChildCount(k, n)
  {
    if k == Upload then Upto(n.size) else n.indices
  }

  /** What a node's CallImpl pushes on the operation vector above the node itself. */
  function CallPushes(op: Op, n: Node): seq<Option<Op>> {
    match op
    case Child(_, _) => []
    case Single(k) =>
      if k == Insert || k == Upsert then [Some(Single(ReadOutside))]
      else if ChildFamily(k).Some? then ChildPushes(ChildFamily(k).value, |ParentTargets(k, n)|)
      else []
  }

  /** The stack entries of the first n children of f, in order. */
  function ChildPushes(f: Family, n: nat): (r: seq<Option<Op>>)
    ensures |r| == n && forall i :: 0 <= i < n ==> r[i] == Some(Child(f, i))
  {
    if n == 0 then [] else ChildPushes(f, n - 1) + [Some(Child(f, n - 1))]
  }

  /** The positions 0 .. n-1. */
  function Upto(n: nat): (r: seq<nat>)
    ensures |r| == n && forall i :: 0 <= i < n ==> r[i] == i
  {
    if n == 0 then [] else Upto(n - 1) + [n - 1]
  }

  /** The child vector entry j before a fan-out, or the fresh node Grow appends there. */
  function NodeOrBlank(nodes: seq<Node>, j: nat): Node {
    if j < |nodes| then nodes[j] else BlankNode()
  }

  /**
   * The index lists of Validate, PostProcessingAfterCommit,
   * PostProcessingAfterAbort and ReleaseReadCounter: one pass over the
   * pool's logical contents, keeping the positions whose slot satisfies p.
   */
  method Collect<E>(contents: seq<E>, p: E -> bool) returns (r: seq<nat>)
    ensures r == IndicesWhere(contents, p)
  {
    r := [];
    var i := 0;
    while i < |contents|
      invariant 0 <= i <= |contents|
      invariant r == IndicesWhere(contents[..i], p)
    {
      assert contents[..i + 1][..i] == contents[..i];
      if p(contents[i]) {
        r := r + [i];
      }
      i := i + 1;
    }
    assert contents[..|contents|] == contents;
  }
}
