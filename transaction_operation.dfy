/**
 * The nodes of a transaction's operation graph
 * (include/transaction/transaction-operation.h,
 * src/transaction/transaction-operation.cpp): the state each node keeps,
 * when a node counts as finished, and the pure decisions the nodes take on
 * the handler's replies. The execution (transaction_execution.dfy) owns the
 * nodes and performs their Call/Next steps.
 */
module Operations {
  import opened Wrappers
  import opened Bytes
  import opened Keys
  import opened Records
  import opened VersionEntries
  import opened TxEntries
  import opened ReadSetEntries
  import opened WriteSetEntries
  import opened HandlerResults
  import opened LocalStates

  /** The operations the execution owns exactly once. */
  datatype Kind =
    | InitTxn | ReadOutside | Insert | Upsert | Update | Delete | ReadDataStore
    | Upload | SetCommitTs | Validate | WriteToLog | UpdateTxnStatusToCommit | PostProcessingAfterCommit
    | UpdateTxnStatusToAbort | PostProcessingAfterAbort | ReleaseReadCounter

  /** The lazily grown vectors of fan-out children. */
  datatype Family =
    | UploadVersionEntry | UpdateReadEntryMaxCommitTs | PushConflictTxnCommitTsLowerBound
    | PostProcessingCommitEntryAfterCommit | PostProcessingDeleteEntryAfterAbort | ReleaseReadCounterForEachEntry

  /** A pointer to an operation: one of the singletons, or child `index` of a vector. */
  datatype Op = Single(kind: Kind) | Child(family: Family, index: nat)

  /**
   * The union of the HandlerResult<T> slots the nodes use: the two flags,
   * the reference count, and one value field per result type.
   */
  datatype HandlerSlot = HandlerSlot(
    flags: Flags,
    refCnt: int,
    ts: int,
    first: VersionEntry,
    second: VersionEntry,
    reread: VersionEntry,
    txn: TxnEntry,
    record: Option<Record>)

  function BlankSlot(): HandlerSlot {
    HandlerSlot(Flags(false, false), 0, 0, VersionEntries.Default(), VersionEntries.Default(),
                VersionEntries.Default(), TxEntries.Default(), None)
  }

  /**
   * The union of the node fields: move_to_next_ and has_next_, the handler
   * slot, the request arguments, the pool index a node points at, index_,
   * txn_id_, size_, the index lists of the fan-out parents and the version
   * an UploadVersionEntry uploads.
   */
  datatype Node = Node(
    moveToNext: bool,
    hasNext: bool,
    slot: HandlerSlot,
    table: Text,
    key: Key,
    record: Option<Record>,
    isDeleted: bool,
    target: nat,
    index: nat,
    txnId: int,
    size: nat,
    indices: seq<nat>,
    versionEntry: VersionEntry)

  function BlankNode(): Node {
    Node(false, false, BlankSlot(), [], IntKey(0), None, false, 0, 0, kEmptyTxId, 0, [], VersionEntries.Default())
  }

  /** The vector a fan-out parent invokes its children from. */
  function ChildFamily(k: Kind): Option<Family> {
    match k
    case Upload => Some(UploadVersionEntry)
    case Validate => Some(UpdateReadEntryMaxCommitTs)
    case PostProcessingAfterCommit => Some(PostProcessingCommitEntryAfterCommit)
    case PostProcessingAfterAbort => Some(PostProcessingDeleteEntryAfterAbort)
    case ReleaseReadCounter => Some(ReleaseReadCounterForEachEntry)
    case _ => None
  }

  /** How many children a fan-out parent waits for: size_ for Upload, its index list otherwise. */
  function ChildCount(k: Kind, n: Node): nat {
    if k == Upload then n.size else |n.indices|
  }

  function NodeAt(singles: map<Kind, Node>, children: map<Family, seq<Node>>, op: Op): Option<Node> {
    match op
    case Single(k) => if k in singles then Some(singles[k]) else None
    case Child(f, i) => if f in children && i < |children[f]| then Some(children[f][i]) else None
  }

  /** IsFinished of a node that looks only at its own state. */
  function OwnFinished(op: Op, n: Node): bool {
    match op
    case Single(k) => if k == Update || k == Delete then true else n.slot.flags.finished
    case Child(f, _) => if f == PostProcessingCommitEntryAfterCommit then n.slot.refCnt == 0 else n.slot.flags.finished
  }

  /**
   * The operations whose IsFinished is their own handler result's
   * IsFinished: not a fan-out parent, not Insert or Upsert (which wait on
   * their ReadOutside), not Update or Delete (finished at once), and not a
   * commit-entry child (which counts references).
   */
  predicate WaitsOnHandler(op: Op) {
    match op
    case Single(k) => ChildFamily(k).None? && k != Insert && k != Upsert && k != Update && k != Delete
    case Child(f, _) => f != PostProcessingCommitEntryAfterCommit
  }

  /** IsCascadeFinished of such a node: finished and already moved past. */
  function OwnCascadeFinished(op: Op, n: Node): bool {
    if op == Single(Update) || op == Single(Delete) then true else OwnFinished(op, n) && n.moveToNext
  }

  /**
   * IsCascadeFinished of child i of a vector. An UpdateReadEntryMaxCommitTs
   * that handed over to its PushConflictTxnCommitTsLowerBound also waits
   * for that node. A child that was never created counts as unfinished.
   */
  function ChildCascadeFinished(singles: map<Kind, Node>, children: map<Family, seq<Node>>, f: Family, i: nat): bool {
    match NodeAt(singles, children, Child(f, i))
    case None => false
    case Some(n) =>
      if f == UpdateReadEntryMaxCommitTs then
        OwnFinished(Child(f, i), n) && n.moveToNext
        && (n.hasNext ==>
              match NodeAt(singles, children, Child(PushConflictTxnCommitTsLowerBound, n.index))
              case None => false
              case Some(p) => OwnCascadeFinished(Child(PushConflictTxnCommitTsLowerBound, n.index), p))
      else OwnCascadeFinished(Child(f, i), n)
  }

  /** Every child a fan-out parent waits for has cascade-finished. */
  predicate AllChildrenDone(singles: map<Kind, Node>, children: map<Family, seq<Node>>, f: Family, count: nat) {
    forall i :: 0 <= i < count ==> ChildCascadeFinished(singles, children, f, i)
  }

  /** IsFinished() of every operation. */
  function IsFinished(singles: map<Kind, Node>, children: map<Family, seq<Node>>, op: Op): bool {
    match NodeAt(singles, children, op)
    case None => false
    case Some(n) =>
      match op
      case Child(_, _) => OwnFinished(op, n)
      case Single(k) =>
        if ChildFamily(k).Some? then AllChildrenDone(singles, children, ChildFamily(k).value, ChildCount(k, n))
        else if k == Insert || k == Upsert then
          ReadOutside in singles && OwnCascadeFinished(Single(ReadOutside), singles[ReadOutside])
        else OwnFinished(op, n)
  }

  /** IsCascadeFinished() of every operation. */
  function IsCascadeFinished(singles: map<Kind, Node>, children: map<Family, seq<Node>>, op: Op): bool {
    match op
    case Child(f, i) => ChildCascadeFinished(singles, children, f, i)
    case Single(k) =>
      if k == Update || k == Delete then true
      else IsFinished(singles, children, op) && k in singles && singles[k].moveToNext
  }

  /**
   * The Reset a fan-out parent gives child i of family f before invoking it:
   * the handler slot cleared and pointed at pool slot `target`. An
   * UploadVersionEntry prepares the version it uploads from the write entry
   * w there, an UpdateReadEntryMaxCommitTs keeps its position i for its
   * PushConflictTxnCommitTsLowerBound, and a commit entry waits for two
   * acknowledgements.
   */
  function ResetChild(f: Family, n: Node, i: nat, target: nat, w: WriteSetEntry, txnId: int): Node {
    var cleared := n.(target := target, slot := n.slot.(flags := ResetFlags()));
    match f
    case UploadVersionEntry =>
      cleared.(versionEntry := VersionEntries.Reset(w.version, txnId, kDefaultBeginTs, kDefaultEndTs, 0, w.isDeleted, None, None))
    case UpdateReadEntryMaxCommitTs => cleared.(index := i)
    case PostProcessingCommitEntryAfterCommit => cleared.(slot := cleared.slot.(refCnt := 2))
    case _ => cleared
  }

  // ---------------------------------------------------------------------
  // Visible-version selection
  // ---------------------------------------------------------------------

  /** A candidate survives unless it is a tombstone at version 0 or below. */
  predicate Readable(v: VersionEntry) {
    !v.isDeleted || v.version > 0
  }

  /**
   * InternalPickVisibleVersion(v1, v2), v1 the higher version: v1 when its
   * end timestamp is set, else v2 when it is a real version; the choice is
   * discarded when it is not Readable.
   */
  function InternalPickVisibleVersion(v1: VersionEntry, v2: VersionEntry): (r: Option<VersionEntry>)
    requires v1.version > v2.version
    ensures r == Some(v1) <==> v1.endTs != kDefaultEndTs && Readable(v1)
    ensures r == Some(v2) <==> v1.endTs == kDefaultEndTs && v2.version != kDefaultVersion && Readable(v2)
    ensures r.Some? ==> r == Some(v1) || r == Some(v2)
  {
    var chosen :=
      if v1.endTs != kDefaultEndTs then Some(v1)
      else if v2.version != kDefaultVersion then Some(v2)
      else None;
    if chosen.Some? && Readable(chosen.value) then chosen else None
  }

  /** PickVisibleVersion(list) on the two entries the handler returns. */
  function PickVisibleVersion(list: seq<VersionEntry>): (r: Option<VersionEntry>)
    requires |list| == 2
    ensures r.Some? ==> (r.value == list[0] || r.value == list[1]) && Readable(r.value)
    ensures list[0].version == list[1].version ==> r.None?
  {
    if list[0].version > list[1].version then InternalPickVisibleVersion(list[0], list[1])
    else if list[0].version < list[1].version then InternalPickVisibleVersion(list[1], list[0])
    else None
  }

  /** The order in which the handler returns the two versions does not matter. */
  lemma PickVisibleVersionIgnoresOrder(a: VersionEntry, b: VersionEntry)
    ensures PickVisibleVersion([a, b]) == PickVisibleVersion([b, a])
  {
  }

  /**
   * The lower version is picked only when the higher one is still open
   * (its end timestamp unset), and the higher one whenever it is closed and
   * Readable.
   */
  lemma PickPrefersClosedHigherVersion(a: VersionEntry, b: VersionEntry)
    requires a.version > b.version
    ensures PickVisibleVersion([a, b]) == Some(b) ==> a.endTs == kDefaultEndTs && b.version != kDefaultVersion
    ensures a.endTs != kDefaultEndTs && Readable(a) ==> PickVisibleVersion([a, b]) == Some(a)
    ensures a.endTs != kDefaultEndTs && !Readable(a) ==> PickVisibleVersion([a, b]).None?
  {
  }

  // ---------------------------------------------------------------------
  // Read outcome
  // ---------------------------------------------------------------------

  /** What a read reports to the client. */
  datatype ReadReply = NullReply | DeletedReply | RecordReply(record: Option<Record>)

  /**
   * The read-set entry InternalRead stores: the visible version, or, when
   * there is none, a deleted placeholder at version 0 covering [0, kMaxTimeStamp].
   */
  function ReadEntryFor(visible: Option<VersionEntry>): (e: ReadSetEntry)
    ensures visible.None? ==> e.version == 0 && e.txId == kEmptyTxId && e.beginTs == 0
                              && e.endTs == kMaxTimeStamp && e.isDeleted && e.record == None
    ensures visible.Some? ==> e.version == visible.value.version && e.txId == visible.value.txId
                              && e.beginTs == visible.value.beginTs && e.endTs == visible.value.endTs
                              && e.isDeleted == visible.value.isDeleted && e.record == visible.value.readRecord
    ensures !e.isUpdated && e.needRelease && !e.needPostProcessing
  {
    match visible
    case Some(v) => ReadSetEntries.Reset(v.version, v.txId, v.beginTs, v.endTs, v.isDeleted, v.readRecord)
    case None => ReadSetEntries.Reset(0, kEmptyTxId, 0, kMaxTimeStamp, true, None)
  }

  /** What InternalRead reports: null without a visible version, deleted for a tombstone, its record otherwise. */
  function ReadReplyFor(visible: Option<VersionEntry>): ReadReply {
    match visible
    case None => NullReply
    case Some(v) => if v.isDeleted then DeletedReply else RecordReply(v.readRecord)
  }

  /** The stored entry and the reply agree: the entry is a tombstone exactly when no record is reported. */
  lemma ReadEntryAgreesWithReply(visible: Option<VersionEntry>)
    ensures ReadEntryFor(visible).isDeleted <==> !ReadReplyFor(visible).RecordReply?
    ensures ReadReplyFor(visible).RecordReply? ==> ReadReplyFor(visible).record == ReadEntryFor(visible).record
    ensures ReadReplyFor(visible) == NullReply <==> visible.None?
  {
  }

  // ---------------------------------------------------------------------
  // Write rules
  // ---------------------------------------------------------------------

  /** What a write operation does with the newest read entry for its key. */
  datatype WriteChoice = WriteVersion(version: int) | Reject | Skip

  /** InsertOperation::NextImpl: only over a deleted read entry, one version above it. */
  function InsertRule(read: Option<ReadSetEntry>): WriteChoice {
    if read.Some? && read.value.isDeleted then WriteVersion(read.value.version + 1) else Reject
  }

  /** UpsertOperation::NextImpl: over any read entry; without one nothing happens at all. */
  function UpsertRule(read: Option<ReadSetEntry>): WriteChoice {
    if read.Some? then WriteVersion(read.value.version + 1) else Skip
  }

  /** UpdateOperation::CallImpl: needs a read entry that is not a tombstone above version 0. */
  function UpdateRule(read: Option<ReadSetEntry>): WriteChoice {
    if read.None? then Reject
    else if read.value.isDeleted && read.value.version > 0 then Reject
    else WriteVersion(read.value.version + 1)
  }

  /** Every write lands exactly one version above the read entry it is based on. */
  lemma WritesGoOneVersionUp(read: Option<ReadSetEntry>)
    ensures InsertRule(read).WriteVersion? ==> read.Some? && InsertRule(read).version == read.value.version + 1
    ensures UpsertRule(read).WriteVersion? ==> read.Some? && UpsertRule(read).version == read.value.version + 1
    ensures UpdateRule(read).WriteVersion? ==> read.Some? && UpdateRule(read).version == read.value.version + 1
  {
  }

  /**
   * How the three rules relate: Upsert never rejects; Insert writeSet exactly
   * over a tombstone, and Update writeSet over a live row or a tombstone at
   * version 0 or below; over a live row Insert rejects where the others write.
   */
  lemma WriteRulesCompared(read: Option<ReadSetEntry>)
    ensures UpsertRule(read) != Reject
    ensures InsertRule(read) != Reject <==> read.Some? && read.value.isDeleted
    ensures InsertRule(read) != Reject ==> UpsertRule(read) == InsertRule(read)
    ensures UpdateRule(read) != Reject <==> read.Some? && (!read.value.isDeleted || read.value.version <= 0)
    ensures read.Some? && !read.value.isDeleted ==>
              InsertRule(read) == Reject && UpdateRule(read) == UpsertRule(read)
  {
  }

  /** What DeleteOperation::CallImpl does. */
  datatype DeleteChoice = TombstoneInPlace | NewTombstone(version: int) | DeleteRejected

  /**
   * A write entry for the key takes precedence: a live one is turned into a
   * tombstone in place, an existing tombstone is an error. Otherwise a live
   * read entry gets a new tombstone one version above it.
   */
  function DeleteRule(write: Option<WriteSetEntry>, read: Option<ReadSetEntry>): DeleteChoice {
    if write.Some? then (if write.value.isDeleted then DeleteRejected else TombstoneInPlace)
    else if read.Some? then (if read.value.isDeleted then DeleteRejected else NewTombstone(read.value.version + 1))
    else DeleteRejected
  }

  /** The in-place part of a delete: deleted, record dropped, everything else kept. */
  function Tombstoned(w: WriteSetEntry): (t: WriteSetEntry)
    ensures t.isDeleted && t.record == None
    ensures t.version == w.version && t.readEntry == w.readEntry && t.needPostProcessing == w.needPostProcessing
  {
    w.(isDeleted := true, record := None)
  }

  /** Deleting the same key twice fails the second time, whichever path the first took. */
  lemma DeleteTwiceRejects(write: Option<WriteSetEntry>, read: Option<ReadSetEntry>, newEntry: WriteSetEntry)
    ensures DeleteRule(write, read) == TombstoneInPlace ==> DeleteRule(Some(Tombstoned(write.value)), read) == DeleteRejected
    ensures DeleteRule(write, read).NewTombstone? && newEntry.isDeleted ==> DeleteRule(Some(newEntry), read) == DeleteRejected
  {
  }

  // ---------------------------------------------------------------------
  // Commit timestamp proposal
  // ---------------------------------------------------------------------

  function Max(a: int, b: int): int {
    if a >= b then a else b
  }

  /** Whether a read slot's key also has an entry in the write set. */
  predicate InWriteSet(read: Slot<ReadSetEntry>, writeSet: seq<Slot<WriteSetEntry>>) {
    read.key.Some? && FindNewest(writeSet, read.key.value.tableName, read.key.value.key).Some?
  }

  /** What one read contributes: its begin_ts, or one more when the key is also written. */
  function ProposalTerm(read: Slot<ReadSetEntry>, writeSet: seq<Slot<WriteSetEntry>>): int {
    if InWriteSet(read, writeSet) then read.entry.beginTs + 1 else read.entry.beginTs
  }

  /** The running maximum SetCommitTsOperation::CallImpl folds over the read set. */
  function Proposal(start: int, readSet: seq<Slot<ReadSetEntry>>, writeSet: seq<Slot<WriteSetEntry>>): int
    decreases |readSet|
  {
    if |readSet| == 0 then start
    else Max(Proposal(start, readSet[..|readSet| - 1], writeSet), ProposalTerm(readSet[|readSet| - 1], writeSet))
  }

  /**
   * The proposal is the least value that is at least `start`, at least
   * every read's begin_ts, and above the begin_ts of every read whose key
   * is also written: it bounds them all and equals one of them.
   */
  lemma {:induction false} ProposalIsLeastUpperBound(start: int, readSet: seq<Slot<ReadSetEntry>>, writeSet: seq<Slot<WriteSetEntry>>)
    ensures Proposal(start, readSet, writeSet) >= start
    ensures forall i :: 0 <= i < |readSet| ==> Proposal(start, readSet, writeSet) >= ProposalTerm(readSet[i], writeSet)
    ensures forall i :: 0 <= i < |readSet| && InWriteSet(readSet[i], writeSet) ==> Proposal(start, readSet, writeSet) > readSet[i].entry.beginTs
    ensures Proposal(start, readSet, writeSet) == start
            || exists i :: 0 <= i < |readSet| && Proposal(start, readSet, writeSet) == ProposalTerm(readSet[i], writeSet)
    decreases |readSet|
  {
    if |readSet| > 0 {
      var init := readSet[..|readSet| - 1];
      ProposalIsLeastUpperBound(start, init, writeSet);
      var p := Proposal(start, readSet, writeSet);
      forall i | 0 <= i < |readSet|
        ensures p >= ProposalTerm(readSet[i], writeSet)
      {
        if i < |readSet| - 1 {
          assert readSet[i] == init[i];
        }
      }
      if p != start && p != ProposalTerm(readSet[|readSet| - 1], writeSet) {
        var j :| 0 <= j < |init| && Proposal(start, init, writeSet) == ProposalTerm(init[j], writeSet);
        assert readSet[j] == init[j];
      }
    }
  }

  // ---------------------------------------------------------------------
  // Index lists of the fan-out parents
  // ---------------------------------------------------------------------

  /** The positions of s, in increasing order, whose element satisfies p. */
  function IndicesWhere<E>(s: seq<E>, p: E -> bool): seq<nat>
    decreases |s|
  {
    if |s| == 0 then []
    else IndicesWhere(s[..|s| - 1], p) + (if p(s[|s| - 1]) then [|s| - 1] else [])
  }

  /** The list holds exactly the satisfying positions, each once, in increasing order. */
  lemma {:induction false} IndicesWhereExactly<E>(s: seq<E>, p: E -> bool)
    ensures forall j :: j in IndicesWhere(s, p) <==> 0 <= j < |s| && p(s[j])
    ensures forall a, b :: 0 <= a < b < |IndicesWhere(s, p)| ==> IndicesWhere(s, p)[a] < IndicesWhere(s, p)[b]
    decreases |s|
  {
    if |s| > 0 {
      var init := s[..|s| - 1];
      IndicesWhereExactly(init, p);
      forall j | 0 <= j < |init|
        ensures init[j] == s[j]
      {
      }
      var r0 := IndicesWhere(init, p);
      var r := IndicesWhere(s, p);
      assert forall j :: j in r0 ==> j < |s| - 1;
      forall a, b | 0 <= a < b < |r|
        ensures r[a] < r[b]
      {
        if b < |r0| {
          assert r[a] == r0[a] && r[b] == r0[b];
        } else {
          assert r[b] == |s| - 1 && r[a] == r0[a] && r0[a] in r0;
        }
      }
    }
  }

  /** Validate::Reset keeps the reads that no write is based on. */
  predicate NotUpdated(s: Slot<ReadSetEntry>) {
    !s.entry.isUpdated
  }

  /** Both post-processing parents keep the writes whose version was uploaded. */
  predicate NeedsPostProcessing(s: Slot<WriteSetEntry>) {
    s.entry.needPostProcessing
  }

  /** ReleaseReadCounter::Reset keeps the reads whose counter is still held. */
  predicate NeedsRelease(s: Slot<ReadSetEntry>) {
    s.entry.needRelease
  }

  // ---------------------------------------------------------------------
  // Validation
  // ---------------------------------------------------------------------

  /** What UpdateReadEntryMaxCommitTs::NextImpl decides on the reread version. */
  datatype RereadVerdict = RereadAbort | PushLowerBound(txId: int) | RereadValid

  /**
   * Abort when the handler failed, when the version is gone, or when the
   * commit timestamp lies beyond the version's end; otherwise push the
   * locking transaction if there is one.
   */
  function RereadVerdictFor(error: bool, reread: VersionEntry, commitTs: int): RereadVerdict {
    if error then RereadAbort
    else if reread.version == kDefaultVersion then RereadAbort
    else if commitTs > reread.endTs then RereadAbort
    else if reread.txId != kEmptyTxId then PushLowerBound(reread.txId)
    else RereadValid
  }

  /** A read passes or pushes only when its version still exists and covers the commit timestamp. */
  lemma RereadVerdictSound(error: bool, reread: VersionEntry, commitTs: int)
    ensures RereadVerdictFor(error, reread, commitTs) != RereadAbort <==>
              !error && reread.version != kDefaultVersion && commitTs <= reread.endTs
    ensures RereadVerdictFor(error, reread, commitTs) == RereadValid ==> reread.txId == kEmptyTxId
    ensures RereadVerdictFor(error, reread, commitTs).PushLowerBound? ==>
              RereadVerdictFor(error, reread, commitTs).txId == reread.txId != kEmptyTxId
  {
  }

  /**
   * PushConflictTxnCommitTsLowerBound::NextImpl: abort when the handler
   * failed, or when the conflicting transaction committed, or proposed a
   * commit timestamp while ongoing, at or below ours.
   */
  function ConflictAborts(error: bool, txn: TxnEntry, commitTs: int): bool {
    error
    || (txn.status == Committed && txn.commitTs <= commitTs)
    || (txn.status == Ongoing && txn.commitTs != kDefaultCommitTs && txn.commitTs <= commitTs)
  }

  /**
   * Only a conflicting transaction that is committed or ongoing can abort
   * us, and only through a commit timestamp at or below ours; an abort
   * stays an abort for any larger commit timestamp of ours.
   */
  lemma ConflictAbortsCharacterised(txn: TxnEntry, commitTs: int, later: int)
    ensures ConflictAborts(false, txn, commitTs) ==>
              (txn.status == Committed || txn.status == Ongoing) && txn.commitTs <= commitTs
    ensures txn.status == Ongoing && txn.commitTs == kDefaultCommitTs ==> !ConflictAborts(false, txn, commitTs)
    ensures commitTs <= later && ConflictAborts(false, txn, commitTs) ==> ConflictAborts(false, txn, later)
  {
  }

  // ---------------------------------------------------------------------
  // Chains
  // ---------------------------------------------------------------------

  /** The node each operation hands over to when its step succeeds. */
  function SuccessorOnSuccess(k: Kind): Option<Kind> {
    match k
    case Upload => Some(SetCommitTs)
    case SetCommitTs => Some(Validate)
    case Validate => Some(WriteToLog)
    case WriteToLog => Some(UpdateTxnStatusToCommit)
    case UpdateTxnStatusToCommit => Some(PostProcessingAfterCommit)
    case UpdateTxnStatusToAbort => Some(PostProcessingAfterAbort)
    case PostProcessingAfterAbort => Some(ReleaseReadCounter)
    case _ => None
  }

  /** Following successful steps from k for n steps. */
  function Follow(k: Kind, n: nat): Option<Kind>
    decreases n
  {
    if n == 0 then Some(k)
    else match SuccessorOnSuccess(k)
      case None => None
      case Some(next) => Follow(next, n - 1)
  }

  /**
   * The commit chain is Upload, SetCommitTs, Validate, WriteToLog,
   * UpdateTxnStatusToCommit, PostProcessingAfterCommit; the abort chain is
   * UpdateTxnStatusToAbort, PostProcessingAfterAbort, ReleaseReadCounter.
   * Both end there.
   */
  lemma ChainsInOrder()
    ensures Follow(Upload, 1) == Some(SetCommitTs) && Follow(Upload, 2) == Some(Validate)
    ensures Follow(Upload, 3) == Some(WriteToLog) && Follow(Upload, 4) == Some(UpdateTxnStatusToCommit)
    ensures Follow(Upload, 5) == Some(PostProcessingAfterCommit) && Follow(Upload, 6) == None
    ensures Follow(UpdateTxnStatusToAbort, 1) == Some(PostProcessingAfterAbort)
    ensures Follow(UpdateTxnStatusToAbort, 2) == Some(ReleaseReadCounter) && Follow(UpdateTxnStatusToAbort, 3) == None
  {
  }
}
