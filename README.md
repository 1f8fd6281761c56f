# Fugue transaction execution in Dafny

This project models the transaction-execution core of Fugue, a
multi-version optimistic concurrency control (MVOCC) engine. A client
session issues Begin, reads, writes and Commit or Abort. An executor binds
each session to one of a fixed set of slots (transaction tasks). Each slot
holds a `TransactionExecution`, and the executor drives it with
non-blocking `MoveForward` calls. The execution keeps a call stack of
operations. Every operation makes at most one asynchronous call to the
version store (the handler), the transaction log or the data store, and
decides from the answer which operation comes next:

- the read outside and its visible-version choice;
- the Insert, Upsert, Update and Delete rules against the local read and
  write sets;
- the commit chain: Upload, SetCommitTs, Validate, WriteToLog,
  UpdateTxnStatusToCommit, PostProcessingAfterCommit;
- the abort chain: UpdateTxnStatusToAbort, PostProcessingAfterAbort,
  ReleaseReadCounter.

The model has one module per source unit.

- `Bytes`, `Keys`, `Records`, `Configuration`. Fixed-layout serialisation
  (length-prefixed strings, little-endian int64) and its round trips.
- `ReadSetEntries`, `WriteSetEntries`, `VersionEntries`, `TxEntries`. The
  entry records, with their sentinels, Resets and serialisers.
- `HandlerResults`. The finished/error flag pair that every step polls.
- `LocalStates`. The growable read-set and write-set slot pools, and the
  `LocalState` that owns both.
- `Operations`. The per-operation decisions as pure functions: visible
  version, write rules, delete rule, commit-timestamp proposal, validation
  verdicts and the chain successors.
- `Executions`. The `TransactionExecution` class: every node's Reset,
  CallImpl and NextImpl, the call stack and `MoveForward`.
- `Requests`, `TransactionRequests`, `TransactionTasks`. Client results,
  operation requests, the per-slot request cursor and the slot itself.
- `TimeProviders`, `TxnIdGenerators`, `TxnIdGeneratorFactories`. The
  local clock and the partitioned transaction-id space.
- `ExecutorSteps`, `TransactionExecutors`. One slot's turn, and the
  executor state shared by both executors.
- `AllAtOnceExecutors`, `RuntimeExecutors`. The two executors.

How the model stands in for the parts it does not run:

- Pointers into the pools are slot indices.
- Every asynchronous call is recorded in the execution's `issued` list.
- The answer to a call is delivered into the calling node's slot by
  `Deliver`, once per handler batch.
- The wall clock is a `now` parameter.
- The executors' run loops consume a finite sequence of handler rounds.

## Model

| member | source | states |
|---|---|---|
| Bytes.DecodeEncodeUnsigned | include/versiondb/key.h:129-139 | Decoding the n little-endian bytes of an unsigned value gives the value back. |
| Bytes.DecodeEncodeSigned | include/versiondb/key.h:129-139 | Decoding the two's-complement n-byte form of a value that fits gives the value back. |
| Bytes.Int64RoundTrip | include/versiondb/key.h:129-139 | What memcpy of an int64 writes decodes to the same int64. |
| Bytes.Int32RoundTrip | include/versiondb/key.h:69-84 | The 4-byte length field round-trips. |
| Bytes.EncodeInt64 | include/utility/configuration.h:11 | An int64 is written in INT64_T_LENGTH = 8 bytes. |
| Bytes.EncodeInt32 | include/utility/configuration.h:12 | A length field is written in INT_LENGTH = 4 bytes. |
| Bytes.EncodeBool | include/utility/configuration.h:15 | A bool is written in BOOL_LENGTH = 1 byte. |
| Bytes.EncodeText | include/versiondb/key.h:69-76 | A string is written as a 4-byte length followed by its bytes, so its encoding is 4 + size bytes long. |
| Bytes.DecodeText | include/versiondb/key.h:78-84 | A successful read consumes exactly 4 + the length it reads, within the input. |
| Bytes.TextRoundTrip | include/versiondb/key.h:69-84 | Reading a written string, with anything after it, gives the string and its length back. |
| Bytes.Write | include/versiondb/key.h:69-76 | memcpy at offset followed by `offset += n`: the bytes at [offset, offset+n) become the data, the rest of the buffer is unchanged, and the new offset is offset+n. |
| Bytes.WriteBoth | include/versiondb/key.h:69-76 | Two consecutive writes leave the same buffer as one write of their concatenation, and the offset moves past both. |
| Keys.EqualsIsValueEquality | include/versiondb/key.h:50-57 | Key equality holds exactly when kind and payload are equal (operator== for both StringKey and IntKey). |
| Keys.Copy | include/versiondb/key.h:35-38 | A copy is equal to the original and of the same kind. |
| Keys.CopyFrom | include/versiondb/key.h:40-48 | Between keys of the same kind, CopyFrom succeeds and the receiver then equals the source. |
| Keys.SerializeLength | include/versiondb/key.h:64-67 | Serialize_Length (4 + size for a string key, 8 for an int key) is exactly the length of the encoding. |
| Keys.Decode | include/versiondb/key.h:78-84 | A successful read yields a key of the receiver's kind and consumes no more than it was given. |
| Keys.RoundTrip | include/versiondb/key.h:69-84 | Deserialising a serialised key restores it and advances by exactly Serialize_Length. |
| Keys.SerializeToBuffer | include/versiondb/key.h:69-76 | The key's encoding is written at offset, nothing else in the buffer changes, and offset advances by Serialize_Length. |
| Keys.DeserializeFromBuffer | include/versiondb/key.h:78-139 | For both StringKey (lines 78-84) and IntKey (lines 135-139): the receiver's payload and the advance are what decoding the buffer from offset gives. |
| Records.Copy | include/versiondb/record.h:26-29 | A copy equals the original. |
| Records.CopyFrom | include/versiondb/record.h:54-62 | Between records of the same kind, CopyFrom succeeds and the receiver then equals the source. |
| Records.SerializeLength | include/versiondb/record.h:31-34 | Serialize_Length (4 + size for a string record, 8 for an int record) is exactly the length of the encoding. |
| Records.Decode | include/versiondb/record.h:45-52 | A successful read yields a record of the receiver's kind and consumes no more than it was given. |
| Records.RoundTrip | include/versiondb/record.h:36-52 | Deserialising a serialised record restores its data and advances by exactly Serialize_Length. |
| Records.SerializeToBuffer | include/versiondb/record.h:36-43 | The record's encoding is written at offset, the rest of the buffer is kept, and offset advances by Serialize_Length. |
| Records.DeserializeFromBuffer | include/versiondb/record.h:45-94 | For both StringRecord (lines 45-52: a 4-byte length, then that many bytes) and IntRecord (lines 89-94: 8 bytes), the receiver's data and the advance are what decoding the buffer from offset gives. |
| ReadSetEntries.Reset | include/versiondb/read-set-entry.h:63-84 | Every field is taken from its argument; the three trailing flags default to need_post_processing = false, need_release = true, is_updated = false. |
| ReadSetEntries.ResetKeepsDefaultBookkeeping | include/versiondb/read-set-entry.h:12-24 | A Reset with only the leading arguments leaves the flags as a default-constructed entry has them: need_release re-armed, is_updated and need_post_processing cleared. |
| ReadSetEntries.Copy | include/versiondb/read-set-entry.h:49-61 | A copy has every field of the original, sharing its record. |
| WriteSetEntries.Reset | include/versiondb/write-set-entry.h:47-58 | version, is_deleted, record, read_entry and need_post_processing are taken from the arguments. |
| WriteSetEntries.Copy | include/versiondb/write-set-entry.h:37-45 | A copy keeps version, is_deleted, record, read_entry and need_post_processing. |
| WriteSetEntries.SerializeLengthUndercounts | include/versiondb/write-set-entry.h:60-67 | Serialize_Length as written is exactly 4 bytes shorter than what SerializeToBuffer writes, for every serialisable entry. |
| WriteSetEntries.CorrectedSerializeLength | include/versiondb/write-set-entry.h:69-76 | With the version counted at 8 bytes, the length is exactly the length of the encoding. |
| WriteSetEntries.SerializeToBuffer | include/versiondb/write-set-entry.h:69-76 | Writes the 8-byte version, the 1-byte deleted flag, then the record. The rest of the buffer is kept and offset advances by 8 + 1 + the record's length. |
| TxEntries.Reset | include/versiondb/tx-entry.h:55-61 | The entry is a default entry (status ongoing, commit_ts unset) with the given tx_id and lower bound, whatever it held before. |
| TxEntries.ResetLowerBound | include/versiondb/tx-entry.h:63-66 | Only commit_lower_bound changes. |
| TxEntries.SerializeLength | include/versiondb/tx-entry.h:68-71 | Serialize_Length (16) is exactly the length of the encoding. |
| TxEntries.EncodeCarriesIdAndCommitTs | include/versiondb/tx-entry.h:73-79 | The first 8 bytes decode to tx_id and the next 8 to commit_ts, and entries that agree on those two fields encode alike. |
| TxEntries.SerializeToBuffer | include/versiondb/tx-entry.h:73-79 | tx_id then commit_ts are written at offset, the rest of the buffer is kept, and offset advances by 16. |
| VersionEntries.ResetToDefault | include/versiondb/version-entry.h:103-115 | Every field goes back to its default sentinel except the read record, which becomes the argument. |
| VersionEntries.LessIsStrictOrderOnVersions | include/versiondb/version-entry.h:27-37 | operator< is irreflexive, transitive and asymmetric. Two entries are incomparable exactly when their version numbers are equal. |
| VersionEntries.Reset | include/versiondb/version-entry.h:117-136 | Every field is taken from its argument. |
| VersionEntries.Assign | include/versiondb/version-entry.h:39-51 | After operator= the target equals the source field for field. |
| HandlerResults.ResetFlags | include/versiondb/request/handler-result.h:39-43 | Reset clears both flags. |
| HandlerResults.SetFinishedFlags | include/versiondb/request/handler-result.h:23-26 | SetFinished sets is_finished_ and keeps is_error_. |
| HandlerResults.SetErrorFlags | include/versiondb/request/handler-result.h:28-32 | SetError sets both is_error_ and is_finished_. |
| HandlerResults.ConsistentAfterReset | include/versiondb/request/handler-result.h:23-43 | From a consistent state, whatever sequence of SetFinished, SetError and Reset follows, IsError implies IsFinished. A new error flag implies a SetError was among the calls. |
| HandlerResults.HandlerResult.constructor | include/versiondb/request/handler-result.h:10-12 | The fields start at the values the caller supplies, since the default constructor leaves them indeterminate. |
| HandlerResults.HandlerResult.SetFinished | include/versiondb/request/handler-result.h:23-26 | Applies SetFinishedFlags to the flags and keeps result_ and ref_cnt. |
| HandlerResults.HandlerResult.SetError | include/versiondb/request/handler-result.h:28-32 | Applies SetErrorFlags to the flags and keeps result_ and ref_cnt. |
| HandlerResults.HandlerResult.Reset | include/versiondb/request/handler-result.h:39-43 | Both flags are cleared; result_ and ref_cnt are unchanged. |
| TimeProviders.GetTimeBetweenRefreshes | src/transaction/local-time-provider.cpp:15-29 | count_ stays within [0, TIME_PROVIDER_INTERVAL]. Without a refresh GetTime returns time_value_ + count_, and two calls in one window return consecutive values. |
| TimeProviders.RefreshReadsWallClock | src/transaction/local-time-provider.cpp:17-26 | When count_ equals the interval, time_value_ becomes max(time_value_, now), so it never decreases, and the count restarts. |
| TimeProviders.SetTimeDominates | src/transaction/local-time-provider.cpp:31-35 | After SetTime(t), the next GetTime is at least t and greater than every value handed out since the last refresh. |
| TimeProviders.GetTimeNotMonotonicAcrossRefresh | src/transaction/local-time-provider.cpp:15-29 | A concrete clock where the value after a refresh is lower than the last value of the window before it. |
| TimeProviders.LocalTimeProvider.constructor | src/transaction/local-time-provider.cpp:8-14 | The base is the wall-clock reading and the count is 0. |
| TimeProviders.LocalTimeProvider.GetTime | src/transaction/local-time-provider.cpp:15-29 | The returned value and the new state are what the GetTimeStep specification gives for the old state and now. |
| TimeProviders.LocalTimeProvider.SetTime | src/transaction/local-time-provider.cpp:31-35 | The new state is what the SetTimeStep specification gives: base max(time_value_ + count_, t) and count 0. |
| TxnIdGenerators.IterateClosedForm | src/transaction/simple-txn-id-generator.cpp:5-13 | Within one cycle, k calls advance the position by k modulo the width, wrapping at most once. |
| TxnIdGenerators.ConsecutiveIdsDistinct | src/transaction/simple-txn-id-generator.cpp:5-13 | Any `interval` consecutive ids are pairwise distinct and stay inside [start, end). |
| TxnIdGenerators.SimpleTxnIdGenerator.constructor | include/transaction/txn-id-generator.h:20-24 | start_ = base, end_ = base + interval and id_ = base. |
| TxnIdGenerators.SimpleTxnIdGenerator.GenerateID | src/transaction/simple-txn-id-generator.cpp:5-13 | Returns id_ + 1, or start_ when that reaches end_. The returned id is stored and lies in [start_, end_). |
| TxnIdGeneratorFactories.NewFactory | include/transaction/txn-id-generator-factory.h:20-23 | interval_ = INT64_MAX / count, truncated toward zero. For a positive count interval_ is at least 1 and interval_ * count fits int64. |
| TxnIdGeneratorFactories.RangesFitAndDisjoint | src/transaction/simple-txn-id-generator-factory.cpp:5-10 | For executor ids below count, base + interval does not overflow, and the ranges of distinct executors do not overlap. |
| TxnIdGeneratorFactories.GetTxnIDGenerator | src/transaction/simple-txn-id-generator-factory.cpp:5-10 | The new generator covers [interval_ * executor_id, interval_ * executor_id + interval_). |
| Requests.FreshResultState | src/transaction/result.cpp:11-31 | The state both Reset overloads leave: the three flags clear, status ongoing, the given record. |
| Requests.Result.constructor | include/transaction/result.h:14-22 | A null record, every flag false, status ongoing, no request. |
| Requests.Result.SetFinished | src/transaction/result.cpp:6-9 | Notifies the bound request, which becomes finished, and changes nothing else. |
| Requests.Result.Reset | src/transaction/result.cpp:11-20 | Flags cleared, status ongoing, the record and request stored; the request's GetResult then returns this result. |
| Requests.Result.ResetWithoutRecord | src/transaction/result.cpp:22-31 | As Reset(record, req) with a null record. |
| Requests.Result.SetRecord | include/transaction/result.h:38-52 | The result holds the record, whether adopted or copied, nothing else changes, and the request is finished. |
| Requests.Result.SetNull | include/transaction/result.h:54-58 | Exactly is_null_ is set, then the request is finished. |
| Requests.Result.SetDeleted | include/transaction/result.h:60-64 | Exactly is_deleted_ is set, then the request is finished. |
| Requests.Result.SetError | include/transaction/result.h:66-70 | Exactly is_error_ is set, then the request is finished. |
| Requests.Result.SetStatus | include/transaction/result.h:72-103 | Exactly the status is stored, then the request is finished; afterwards IsCommitted holds exactly when the status given was kCommitted and IsAbort exactly when it was kAborted, never both. |
| Requests.OperationRequest.constructor | include/transaction/operation-request.h:45-65 | The arguments stored, no result bound, not finished, no dependents, a fresh cache. |
| Requests.OperationRequest.Control | include/transaction/operation-request.h:67-75 | The session id and type stored, with no table, key, record or processor. |
| Requests.OperationRequest.SetResult | src/transaction/operation-request.cpp:7-15 | GetResult returns the result last given to SetResult; nothing else changes. |
| Requests.OperationRequest.AddDependentRequest | src/transaction/operation-request.cpp:17-20 | The request is appended to the dependents. |
| Requests.OperationRequest.SetUp | src/transaction/operation-request.cpp:22-26 | The processor runs once if one is present, otherwise not at all. |
| Requests.OperationRequest.PullResult | src/transaction/operation-request.cpp:28-34 | The cache takes the result's record, is_deleted, is_null and is_error, but keeps its own status. |
| Requests.OperationRequest.Notify | src/transaction/operation-request.cpp:36-42 | is_finished_ becomes true and nothing else changes. |
| LocalStates.SetKeyEqualsIff | include/transaction/local-state.h:56-59 | SetKey equality holds exactly when both key and table name are equal. |
| LocalStates.SetKeySerializeLength | include/transaction/local-state.h:71-75 | Serialize_Length (name size + 4 + the key's length) is exactly the encoding's length. |
| LocalStates.SetKeyRoundTrip | include/transaction/local-state.h:77-87 | Decoding an encoded SetKey gives the SetKey and its length back. |
| LocalStates.SetKeySerializeToBuffer | include/transaction/local-state.h:77-87 | The 4-byte name length, the name, then the key are written at offset, the rest is kept, and offset advances by Serialize_Length. |
| LocalStates.FindNewest | include/transaction/local-state.h:177-193 | The index of the highest matching (table, key) slot, with no match above it, or none when no slot matches. |
| LocalStates.Pool.constructor | include/transaction/local-state.h:117-133 | `capacity` blank slots, logical size 0. |
| LocalStates.Pool.Resize | include/transaction/local-state.h:160-175 | Exactly one blank slot is appended, capacity grows by one, and the size is kept. |
| LocalStates.Pool.New | include/transaction/local-state.h:148-158 | Returns the slot at the old size and increases the size by exactly one. A full pool first grows by one blank slot; otherwise slots and capacity are unchanged. |
| LocalStates.Pool.NewWith | include/transaction/local-state.h:274-293 | As New, and then only the handed-out slot's key and entry are overwritten. The slots in use are the old ones plus the new slot. |
| LocalStates.Pool.Find | include/transaction/local-state.h:312-328 | Returns FindNewest over the slots in use, so slots at or above the size are never examined. |
| LocalStates.Pool.Release | include/transaction/local-state.h:195-198 | The size drops by one; slot contents and capacity stay. |
| LocalStates.Pool.Reset | include/transaction/local-state.h:200-203 | The size becomes 0; slot contents and capacity stay. |
| LocalStates.Pool.Update | include/transaction/local-state.h:288-290 | A write through a slot pointer changes exactly that slot. |
| LocalStates.NewKeepsOlderSlots | include/transaction/local-state.h:282-292 | Slots below the new one are unchanged, so program order is kept. |
| LocalStates.LocalState.constructor | src/transaction/local-state.cpp:5-8 | Both pools get the same capacity and size 0. |
| LocalStates.LocalState.InsertReadSet | src/transaction/local-state.cpp:15-18 | A new read slot at the old read size; the write pool is untouched. |
| LocalStates.LocalState.InsertWriteSet | src/transaction/local-state.cpp:20-35 | The write contents gain one slot with the given key and a Reset entry, older slots are unchanged, and the read pool is untouched. |
| LocalStates.LocalState.FindInWriteSet | src/transaction/local-state.cpp:37-41 | FindNewest over the write slots in use. |
| LocalStates.LocalState.FindInReadSet | src/transaction/local-state.cpp:43-47 | FindNewest over the read slots in use. |
| LocalStates.LocalState.Reset | src/transaction/local-state.cpp:71-75 | Both sizes become 0; slots and capacities are kept. |
| LocalStates.LocalState.ReleaseReadSet | include/transaction/local-state.h:386-389 | The read size drops by one and nothing else changes. |
| LocalStates.LocalState.ReleaseWriteSet | include/transaction/local-state.h:391-394 | The write size drops by one and nothing else changes. |
| Operations.InternalPickVisibleVersion | src/transaction/transaction-operation.cpp:124-146 | With v1 the higher version, v1 is chosen exactly when its end_ts is set and it is readable. v2 is chosen exactly when v1's end_ts is unset, v2's version is not kDefaultVersion, and v2 is readable. A deleted entry of version 0 is not readable. |
| Operations.PickVisibleVersion | src/transaction/transaction-operation.cpp:106-122 | Any choice is one of the two returned versions and is readable; equal version numbers give none. |
| Operations.PickVisibleVersionIgnoresOrder | src/transaction/transaction-operation.cpp:106-122 | The order in which the two versions come back does not matter. |
| Operations.PickPrefersClosedHigherVersion | src/transaction/transaction-operation.cpp:124-146 | The lower version is chosen only when the higher one is still open. A closed, readable higher version is always chosen, and a closed unreadable one yields none. |
| Operations.ReadEntryFor | src/transaction/transaction-operation.cpp:148-192 | With no visible version the read entry is (0, kEmptyTxId, 0, kMaxTimeStamp, deleted, no record). Otherwise it copies the visible version's fields. Either way, need_release is set and the other flags clear. |
| Operations.ReadEntryAgreesWithReply | src/transaction/transaction-operation.cpp:90-104 | The stored entry is a tombstone exactly when no record is returned to the client. A returned record is the entry's record, and a null reply happens exactly when no version is visible. |
| Operations.WritesGoOneVersionUp | src/transaction/transaction-operation.cpp:1059-1125 | Every write that Insert, Upsert or Update adds is based on a read entry and lands at its version + 1. |
| Operations.WriteRulesCompared | src/transaction/transaction-operation.cpp:1134-1161 | Upsert never rejects. Insert writes exactly over a deleted read entry. Update rejects exactly when there is no read entry or it is deleted with version > 0. Over a live entry, Insert rejects and Update and Upsert agree. |
| Operations.Tombstoned | src/transaction/transaction-operation.cpp:1192-1204 | The in-place delete marks the write entry deleted and drops its record, keeping everything else. |
| Operations.DeleteTwiceRejects | src/transaction/transaction-operation.cpp:1185-1226 | Deleting the same key a second time is rejected, whether the first delete tombstoned in place or added a tombstone. |
| Operations.ProposalIsLeastUpperBound | src/transaction/transaction-operation.cpp:310-344 | The proposal is at least the start value and at least every read's term: begin_ts, or begin_ts + 1 for a key also written. It equals the start or one of those terms, so it is their maximum. |
| Operations.IndicesWhereExactly | src/transaction/transaction-operation.cpp:378-390 | The index list a fan-out parent builds holds exactly the positions that satisfy its test, in increasing order. |
| Operations.RereadVerdictSound | src/transaction/transaction-operation.cpp:496-525 | A re-read passes or pushes exactly when there is no error, the version exists and commit_ts <= end_ts. A pass means no writer; a push names the writer's non-empty tx_id. |
| Operations.ConflictAbortsCharacterised | src/transaction/transaction-operation.cpp:541-562 | Only a conflicting transaction that is committed, or ongoing with a commit ts set, can abort us, and only with commit_ts <= ours. An ongoing one with no commit ts never does, and an abort at one commit ts is also an abort at any later one. |
| Operations.ChainsInOrder | src/transaction/transaction-operation.cpp:617-662 | Unrolls the successor table that the contracts of NextSingle, NextChainSingle and NextOp follow: on success the commit chain runs Upload, SetCommitTs, Validate, WriteToLog, UpdateTxnStatusToCommit, PostProcessingAfterCommit, then ends. The abort chain runs UpdateTxnStatusToAbort, PostProcessingAfterAbort, ReleaseReadCounter, then ends. |
| Executions.TransactionExecution.constructor | src/transaction/transaction-execution.cpp:14-29 | Empty stack, every node fresh, status ongoing, commit ts unset, empty pools. |
| Executions.TransactionExecution.SetCurrentRequest | include/transaction/transaction-execution.h:101-105 | Only the current request changes. |
| Executions.TransactionExecution.ResetTime | src/transaction/transaction-execution.cpp:113-117 | A fresh local timestamp from the clock, which also becomes the tx entry's lower bound. |
| Executions.TransactionExecution.ResetTxnIDAndTime | src/transaction/transaction-execution.cpp:106-111 | The next id from the generator and a fresh local time; the tx entry is reset to both. |
| Executions.TransactionExecution.ProposeCommitTs | src/transaction/transaction-operation.cpp:310-344 | The loop over the read set in use computes exactly the Proposal function. |
| Executions.TransactionExecution.SetCommitTs | src/transaction/transaction-execution.cpp:274-278 | The commit timestamp is the candidate, and the clock moves as SetTime(candidate) says. |
| Executions.TransactionExecution.CallSetCommitTs | src/transaction/transaction-operation.cpp:310-344 | After ResetTime, the commit ts is the Proposal from max(max writers ts + 1, local time). SetTime moves the clock to it, and SetCommitTimestamp is issued. |
| Executions.TransactionExecution.CallWriteToLog | src/transaction/transaction-operation.cpp:587-605 | With an empty write set, logging off or no log, the node is finished at once and nothing is issued. Otherwise one append of the write set is issued with the commit ts. |
| Executions.TransactionExecution.ApplyWriteRule | src/transaction/transaction-operation.cpp:1059-1125 | The write rule of Insert, Upsert or Update, applied to the newest read entry for the key, decides the new write entry, the is_updated mark and the client result. |
| Executions.TransactionExecution.CallDelete | src/transaction/transaction-operation.cpp:1185-1226 | The newest write entry decides first (tombstoned in place, or rejected if already deleted). Otherwise a live newest read entry gets a new tombstone at version + 1. Otherwise the delete fails. The request is always finished. |
| Executions.TransactionExecution.ResetReadOutside | src/transaction/transaction-operation.cpp:44-68 | The node takes the request's arguments and a new read slot at the old read size; both returned versions start as defaults. |
| Executions.TransactionExecution.FanOut | src/transaction/transaction-operation.cpp:200-219 | The child vector is grown to the targets, the first `count` children are reset to them, pushed in order and their calls issued. |
| Executions.TransactionExecution.ReleaseReadEntry | src/transaction/transaction-operation.cpp:979-984 | Exactly read slot i changes: its need_release is cleared. |
| Executions.TransactionExecution.NextReadOutside | src/transaction/transaction-operation.cpp:90-104 | On error the new read slot is given back and the result set to error. Otherwise the slot gets ReadEntryFor(visible) and the result the matching reply. The request is finished either way. |
| Executions.TransactionExecution.NextInitTxn | src/transaction/transaction-operation.cpp:1266-1281 | A failed NewTxn is retried with a new id and time. A successful one stores the returned entry and finishes the request. |
| Executions.TransactionExecution.NextReadDataStore | src/transaction/transaction-operation.cpp:1307-1327 | An error, a missing record (null) or the record is reported, and the request is finished. |
| Executions.TransactionExecution.NextUpload | src/transaction/transaction-operation.cpp:221-232 | A waiting-for-abort execution becomes aborting; otherwise SetCommitTs is reset and comes next. |
| Executions.TransactionExecution.NextUploadVersionEntry | src/transaction/transaction-operation.cpp:288-303 | An error makes the execution wait for abort. Otherwise max writers ts rises to the returned ts and the write entry is marked for post-processing. |
| Executions.TransactionExecution.NextSetCommitTs | src/transaction/transaction-operation.cpp:356-376 | An error or a negative ts aborts. Otherwise the value becomes the commit ts and the clock's time, and Validate comes next over the not-updated reads. |
| Executions.TransactionExecution.NextValidate | src/transaction/transaction-operation.cpp:425-436 | A waiting-for-abort execution becomes aborting; otherwise WriteToLog comes next. |
| Executions.TransactionExecution.NextUpdateReadEntryMaxCommitTs | src/transaction/transaction-operation.cpp:496-525 | The re-read verdict decides: abort (wait for abort), push the writer's lower bound (its child comes next), or pass. Unless the handler failed, the read counter is released. |
| Executions.TransactionExecution.NextPushConflictTxnCommitTsLowerBound | src/transaction/transaction-operation.cpp:541-562 | The execution waits for abort exactly when ConflictAborts holds for the returned entry; nothing else changes. |
| Executions.TransactionExecution.NextWriteToLog | src/transaction/transaction-operation.cpp:617-621 | UpdateTxnStatusToCommit is reset and comes next. |
| Executions.TransactionExecution.NextUpdateTxnStatus | src/transaction/transaction-operation.cpp:647-662 | A failure is fatal (Recover). Otherwise the client sees Committed or Aborted and the post-processing parent comes next over the entries that need it. |
| Executions.TransactionExecution.NextFinish | src/transaction/transaction-operation.cpp:701-707 | The status becomes final and the transaction is finished. |
| Executions.TransactionExecution.NextCommitEntry | src/transaction/transaction-operation.cpp:760-772 | A failure is fatal. Otherwise the base read entry, if any, is marked released. |
| Executions.TransactionExecution.NextPostProcessingAfterAbort | src/transaction/transaction-operation.cpp:813-817 | ReleaseReadCounter comes next over the read entries that need release. |
| Executions.TransactionExecution.NextDeleteEntry | src/transaction/transaction-operation.cpp:864-878 | A failure is fatal. Otherwise the base read entry is released when it needs post-processing. |
| Executions.TransactionExecution.NextReleaseForEach | src/transaction/transaction-operation.cpp:971-985 | A failure is fatal. Otherwise the target read entry is marked released. |
| Executions.TransactionExecution.IsOpFinished | src/transaction/transaction-operation.cpp:80-83 | An operation that waits on the handler is finished exactly when its handler result is. Update and Delete always are. A child never created never is. |
| Executions.TransactionExecution.IsOpCascadeFinished | src/transaction/transaction-operation.cpp:85-88 | A singleton other than Update and Delete is cascade-finished exactly when it is finished and has moved to next. Update and Delete always are. |
| Executions.TransactionExecution.Deliver | include/versiondb/request/handler-result.h:23-32 | The handler's answer is written into the calling node's completion slot and nowhere else: no node appears or vanishes, and the scalars, the stack, the calls issued and the request bound stay. Afterwards that node is finished exactly when the answer is. |
| Executions.TransactionExecution.NextOp | src/transaction/transaction-operation.cpp:18-23 | Afterwards move_to_next_ is true, and has_next_ is true exactly when a successor was returned or NextImpl threw. A singleton's successor follows the chain as for NextSingle; a child's can only be the lower-bound push at its own index. The node stays present. |
| Executions.TransactionExecution.NextSingle | src/transaction/transaction-operation.cpp:221-1327 | Unless the step failed (a throw, the execution left aborting, or the InitTxn retry), the successor is exactly the next operation of its chain (`SuccessorOnSuccess`), and none at a chain's end or for a request operation. Any successor returned is that one or the InitTxn retry. The node is kept, except for the retry's reset. |
| Executions.TransactionExecution.NextRequestSingle | src/transaction/transaction-operation.cpp:1059-1327 | Insert, Upsert, Update, Delete, InitTxn and ReadDataStore, and ReadOutside (lines 90-104): none has a successor, except a failed InitTxn, which returns itself with its result re-armed. Every other node is kept. |
| Executions.TransactionExecution.NextChainSingle | src/transaction/transaction-operation.cpp:221-1030 | The commit and abort chains: if nothing threw and the execution is not aborting, the successor is the chain's next operation, or none at its end. Any successor returned is the chain's next one. The node is kept. |
| Executions.TransactionExecution.NextChild | src/transaction/transaction-operation.cpp:496-525 | Only UpdateReadEntryMaxCommitTs has a successor: the PushConflictTxnCommitTsLowerBound child at its own index. The child's node is kept. |
| Executions.TransactionExecution.CallOperation | src/transaction/transaction-operation.cpp:12-16 | move_to_next_ ends false. The stack grows by exactly what the node's CallImpl pushes (`CallPushes`): the read outside for Insert and Upsert, one entry per child for a fan-out parent, nothing otherwise. The trace grows by exactly its calls (`CallsIssued`): a child's one call, the read outside, one call per child in order, or the singleton's own call. |
| Executions.TransactionExecution.CallSingle | src/transaction/transaction-operation.cpp:12-16 | For a singleton: move_to_next_ ends false, and the pushes and calls are exactly `CallPushes` and `CallsIssued` of the node as it was. |
| Executions.TransactionExecution.CallImpl | src/transaction/transaction-operation.cpp:1039-1306 | The CallImpl of each singleton, dispatched: the pushes and calls are exactly `CallPushes` and `CallsIssued`, and move_to_next_ is left alone. |
| Executions.TransactionExecution.CallWrite | src/transaction/transaction-operation.cpp:1039-1236 | Insert and Upsert push the read outside and issue its version-list read of their key. Update and Delete push and issue nothing. The node is kept. |
| Executions.TransactionExecution.CallOther | src/transaction/transaction-operation.cpp:1248-1306 | The stack is kept. The trace grows by `OwnCallIssued`: the commit-timestamp proposal of SetCommitTs, WriteToLog's append unless it finished at once, the node's own call for the rest, and none from the operations without one. |
| Executions.TransactionExecution.CallParent | src/transaction/transaction-operation.cpp:200-219 | Upload here and Validate (lines 392-424) alike: the family grows to the target count and child i is reset towards target i (`FannedOut`). One entry per child is pushed and one call per child is issued, in order. Validate also grows the lower-bound pushes to its count. Other families, the singletons and the scalars are kept. |
| Executions.TransactionExecution.Pass | src/transaction/transaction-execution.cpp:137-152 | The pass never shrinks the stack, and an empty slot of the stack stays empty: only non-null slots are replaced, and invoked children go above. |
| Executions.TransactionExecution.Visit | src/transaction/transaction-execution.cpp:137-152 | One position of the pass. An empty position, or one whose operation has not finished, is passed over: the stack, the scalars, the calls issued, the nodes, the pools and the clock are kept. The stack never shrinks and empty slots stay empty. The pass stops only on a throw, or when the slot is left empty with the execution aborting. |
| Executions.TransactionExecution.InvokeSingle | src/transaction/transaction-operation.cpp:6-10 | The operation is pushed, its move_to_next_ cleared and its one call issued. |
| Executions.TransactionExecution.CallInsert | src/transaction/transaction-operation.cpp:1039-1047 | The read outside is reset to the key, keeping deleted versions, and is pushed with its version-list call issued. |
| Executions.TransactionExecution.Call | src/transaction/transaction-execution.cpp:119-124 | The operation is pushed and what its CallImpl pushes follows it; the trace grows by exactly its calls (`CallsIssued`), and its move_to_next_ ends false. |
| Executions.TransactionExecution.MoveForward | src/transaction/transaction-execution.cpp:126-175 | An empty stack changes nothing. The pass leaves empty slots empty. After a pass, an aborting execution becomes Aborted with UpdateTxnStatusToAbort as the only entry. Otherwise only the trailing empty entries of the stack the pass left are popped. The result is idle exactly when the stack is empty. |
| Executions.TransactionExecution.Abort | src/transaction/transaction-execution.cpp:392-399 | The stack becomes just UpdateTxnStatusToAbort with its call issued, and the result is reset to the current request. |
| Executions.TransactionExecution.Begin | src/transaction/transaction-execution.cpp:401-408 | The type is stored; InitTxn is reset, pushed and calls NewTxn with the entry and the local timestamp. |
| Executions.TransactionExecution.Read | src/transaction/transaction-execution.cpp:343-357 | The read outside is reset to the arguments with a new read slot, pushed and its call issued. The result is reset with the record. |
| Executions.TransactionExecution.ReadDataStore | src/transaction/transaction-execution.cpp:359-377 | With need_to_read the data-store read is pushed and issued; without it nothing is pushed and the request is finished. |
| Executions.TransactionExecution.InsertOrUpsert | src/transaction/transaction-execution.cpp:291-311 | The operation is reset and pushed, then invokes the read outside of the key. |
| Executions.TransactionExecution.Update | src/transaction/transaction-execution.cpp:313-321 | The update is pushed and applies the Update rule at once against the newest read entry for the key. |
| Executions.TransactionExecution.Delete | src/transaction/transaction-execution.cpp:323-329 | The delete is pushed and applies the delete rule at once against the newest write and read entries. |
| Executions.TransactionExecution.Commit | src/transaction/transaction-execution.cpp:379-385 | Upload is pushed with one UploadVersionEntry child per write entry in use, each pushed in order with its call issued. |
| Executions.TransactionExecution.Reset | src/transaction/transaction-execution.cpp:95-104 | Status ongoing, commit ts and max writers ts -1, not finished, empty pools, a new id and local time. |
| Executions.TransactionExecution.PopFinished | src/transaction/transaction-execution.cpp:161-171 | The stack becomes Trimmed of itself. |
| Executions.Trimmed | src/transaction/transaction-execution.cpp:161-171 | A prefix of the stack whose top, if any, is non-empty; everything dropped was empty. Empty entries below a non-empty one stay. |
| Executions.PrepareChildren | src/transaction/transaction-operation.cpp:211-218 | The loop over the targets yields exactly the FannedOut children and their calls. |
| Executions.Collect | src/transaction/transaction-operation.cpp:664-677 | The loop yields exactly IndicesWhere of the contents. |
| TransactionRequests.TransactionRequest.constructor | src/transaction/transaction-request.cpp:5-8 | An empty queue with the cursor at 0. |
| TransactionRequests.TransactionRequest.PushRequest | src/transaction/transaction-request.cpp:15-18 | Appended at the end; the cursor stays. |
| TransactionRequests.TransactionRequest.CurrentRequest | src/transaction/transaction-request.cpp:20-30 | Null, with the cursor unchanged, when every request was handed out. Otherwise queue[cursor], and the cursor advances by one. |
| TransactionRequests.TransactionRequest.Reset | src/transaction/transaction-request.cpp:32-36 | The queue is cleared and the cursor is 0. |
| TransactionTasks.TransactionTask.constructor | include/transaction/transaction-task.h:20-27 | Not in use, session id 0. |
| TransactionTasks.TransactionTask.Reset | include/transaction/transaction-task.h:39-45 | The slot is in use by session s and its request queue is empty. The execution is reset as TransactionExecution::Reset does: pools emptied with their slots kept, no current request, ongoing and unfinished, commit_ts_ and max_writers_ts_ back to -1, the next id from the generator, a local commit ts from one clock step, and a fresh tx entry carrying both. |
| TransactionTasks.TransactionTask.Release | include/transaction/transaction-task.h:47-50 | in_use is cleared and the session id is kept. |
| ExecutorSteps.Dispatch | src/transaction/all-at-once-transaction-executor.cpp:134-214 | The request becomes current and the entry point for its type is entered, with the stack as `EnteredOnto` says and the result bound or rebound per executor. It succeeds exactly unless a request whose key is passed on has none, which the model makes a crash (see "## Left out"). |
| ExecutorSteps.DispatchReadDataStore | src/transaction/all-at-once-transaction-executor.cpp:184-205 | With a driver the execution reads the data store, and without one the result is reset to the record. Without need_to_read the request finishes at once. |
| ExecutorSteps.Turn | src/transaction/all-at-once-transaction-executor.cpp:117-216 | A free slot is skipped. Without a throw, a request is served exactly when the execution is idle after MoveForward (its stack empty), unfinished, and the slot's queue holds a request past the cursor; the cursor then advances by one and the execution holds that request. done holds exactly when the slot's transaction is finished. |
| ExecutorSteps.TakeNext | src/transaction/all-at-once-transaction-executor.cpp:122-131 | A request is served exactly when the slot's queue has one left. Serving moves the cursor by one and makes it the execution's current request. |
| TransactionExecutors.TransactionExecutor.constructor | include/transaction/transaction-executor.h:13-23 | n free slots of session 0 with empty queues, no active transaction, counters 0. |
| TransactionExecutors.TransactionExecutor.Statistics | include/transaction/transaction-executor.h:38-39 | Reports the commit and abort counters. Both executors implement Statistics identically over these counters, which live in the shared base, so this one method stands for both. |
| TransactionExecutors.TransactionExecutor.IdleSlots | src/transaction/all-at-once-transaction-executor.cpp:255-258 | The active count is 0 exactly when no slot is in use. |
| TransactionExecutors.TransactionExecutor.FreeSlotExists | src/transaction/all-at-once-transaction-executor.cpp:57-69 | With fewer active transactions than slots, the search from last_index finds a free slot. |
| TransactionExecutors.TransactionExecutor.FindFree | src/transaction/runtime-transaction-executor.cpp:68-79 | The lowest free slot at or after `from`, or none when every one is in use. |
| TransactionExecutors.TransactionExecutor.FindSession | src/transaction/runtime-transaction-executor.cpp:87-101 | The lowest slot whose session id matches, in use or not, or none. |
| TransactionExecutors.TransactionExecutor.Take | include/transaction/transaction-task.h:39-45 | The free slot is in use by the session, with an empty queue and an ongoing execution, and active rises by one. |
| TransactionExecutors.TransactionExecutor.Push | src/transaction/runtime-transaction-executor.cpp:109-111 | The request is appended to slot j's queue and nothing else changes. |
| TransactionExecutors.TransactionExecutor.Visit | src/transaction/all-at-once-transaction-executor.cpp:218-233 | A finished transaction is counted as committed or aborted by its status, the slot is freed and active drops by one; otherwise counts and slots stay. Without a throw, a slot in use is freed exactly when its transaction has finished. The other slots' executions keep their finished flag. |
| TransactionExecutors.TransactionExecutor.Retire | src/transaction/all-at-once-transaction-executor.cpp:218-233 | The slot is freed, active drops by one, and the commit or abort counter rises by its status. |
| TransactionExecutors.TransactionExecutor.Sweep | src/transaction/all-at-once-transaction-executor.cpp:117-233 | One tick per slot in order. Slots only go free and keep their sessions and queues. Some transaction finished exactly when active dropped, and the counters rise by at most the drop. Without a throw, a slot that was in use is free afterwards exactly when its transaction has finished. |
| TransactionExecutors.TransactionExecutor.DeliverAll | src/transaction/all-at-once-transaction-executor.cpp:236 | SendBatch: each answer for a slot lands in the node of the call it answers, and of two answers to one call the later one stays. A node no answer names is as it was, and so are every execution's scalars, stack, calls issued and request bound, and everything the executor counts. |
| TransactionExecutors.TransactionExecutor.DeliverOne | src/transaction/all-at-once-transaction-executor.cpp:236 | One answer reaches the execution of the slot it names, in the node of the call it answers and nowhere else; every other execution is as it was, and an answer for no slot is dropped. |
| AllAtOnceExecutors.Closer | src/transaction/all-at-once-transaction-executor.cpp:71-91 | Any closer found lies at or after k. |
| AllAtOnceExecutors.CloserIsFirst | src/transaction/all-at-once-transaction-executor.cpp:71-91 | The inner loop stops at the first Commit or Abort at or after k; none means there is none. |
| AllAtOnceExecutors.EndsAppend | src/transaction/all-at-once-transaction-executor.cpp:71-91 | The number of Commits and Aborts adds up over concatenation. |
| AllAtOnceExecutors.EndsOfSession | src/transaction/all-at-once-transaction-executor.cpp:71-91 | A session's requests hold exactly one Commit or Abort. |
| AllAtOnceExecutors.SessionCountIsEnds | src/transaction/all-at-once-transaction-executor.cpp:46-107 | Over whole sessions there are exactly as many sessions as Commits and Aborts. |
| AllAtOnceExecutors.SessionShape | src/transaction/all-at-once-transaction-executor.cpp:71-91 | A session starts with its Begin and ends with its one Commit or Abort. |
| AllAtOnceExecutors.SessionOpen | src/transaction/all-at-once-transaction-executor.cpp:71-75 | A session at pop_index_ has its closer in the pool. |
| AllAtOnceExecutors.SessionStep | src/transaction/all-at-once-transaction-executor.cpp:99-100 | Past the closer the pool is whole sessions again, one fewer. |
| AllAtOnceExecutors.SearchedIncreasing | src/transaction/all-at-once-transaction-executor.cpp:57-105 | The slots one launch fills were free before it, lie before the next search point and strictly increase, because last_index only moves forward. |
| AllAtOnceExecutors.SearchStep | src/transaction/all-at-once-transaction-executor.cpp:61-69 | The first free slot the search from last_index finds in the current slots is the lowest slot free before the launch from that point, since the slots filled so far all lie before it. |
| AllAtOnceExecutors.PlaceStep | src/transaction/all-at-once-transaction-executor.cpp:61-91 | Putting the next session whole into a slot not yet filled extends the placement by that pair; every other slot still holds what it held before the launch. |
| AllAtOnceExecutors.ConsumedStep | src/transaction/all-at-once-transaction-executor.cpp:71-104 | Reading the session at pop_index_ extends the sessions read, and pop_index_ lands just past its Commit or Abort. |
| AllAtOnceExecutors.LaunchStep | src/transaction/all-at-once-transaction-executor.cpp:57-105 | One round of the outer loop keeps the search and the placement exact: the new slot is the lowest free one from last_index, and it holds the whole session. |
| AllAtOnceExecutors.ProgressStep | src/transaction/all-at-once-transaction-executor.cpp:57-105 | A session at pop_index_ has its closer, and binding it into the slot found from last_index is one more step of the launch, with the search resuming one past that slot. |
| AllAtOnceExecutors.FirstCloser | src/transaction/all-at-once-transaction-executor.cpp:84-89 | A Commit or Abort that the inner loop meets no later than the session's first closer is that closer, so the loop stops there. |
| AllAtOnceExecutors.AllAtOnceExecutor.LaunchNext | src/transaction/all-at-once-transaction-executor.cpp:57-105 | One round: the lowest free slot at or after last_index takes the session at pop_index_, active and launched rise by one, and every slot up to the one taken is in use. |
| AllAtOnceExecutors.AllAtOnceExecutor.TakeFree | src/transaction/all-at-once-transaction-executor.cpp:61-95 | A free slot exists at or after last_index, so "no empty txn task" is not thrown. The lowest one takes the session at pop_index_ whole, and pop_index_ moves past its closer. |
| AllAtOnceExecutors.AllAtOnceExecutor.constructor | src/transaction/all-at-once-transaction-executor.cpp:5-36 | concurrent_txn_count free slots, an empty request pool, push and pop at 0. |
| AllAtOnceExecutors.AllAtOnceExecutor.AddRequest | src/transaction/all-at-once-transaction-executor.cpp:38-43 | Stored at push_index_, which moves on by one; pop_index_ and the counters stay. |
| AllAtOnceExecutors.AllAtOnceExecutor.FinishedIsIdle | src/transaction/all-at-once-transaction-executor.cpp:255-258 | IsFinished (pop_index_ == push_index_ and no active transaction, as in the source) holds exactly when every request was launched and no slot is in use. |
| AllAtOnceExecutors.AllAtOnceExecutor.LaunchRequests | src/transaction/all-at-once-transaction-executor.cpp:46-107 | Whole sessions are launched until the pool is used up or every slot is busy. The k-th session read, in pool order (starts[k]), goes whole into slot placed[k]. placed[k] is the lowest slot free before the launch at or after placed[k-1]+1 (slot 0 for the first), so the slots strictly increase. Every other slot keeps what it held. The number launched equals the rise in active and the sessions consumed. |
| AllAtOnceExecutors.AllAtOnceExecutor.BindSession | src/transaction/all-at-once-transaction-executor.cpp:57-100 | The free slot takes the session at pop_index_, whole, in order. pop_index_ moves past its closer, one session fewer remains, and active and launched rise by one. |
| AllAtOnceExecutors.AllAtOnceExecutor.Advance | src/transaction/all-at-once-transaction-executor.cpp:109-238 | Sweeps with SendBatch until some transaction finishes (active drops), a throw, or rounds run out. It stops after the first sweep that frees a slot: the active count the last sweep started from is the one Advance started from. Slots only go free and keep their sessions. |
| AllAtOnceExecutors.AllAtOnceExecutor.Run | src/transaction/all-at-once-transaction-executor.cpp:246-253 | Unless it throws or rounds run out, it ends finished. The number of transactions launched equals the number of sessions consumed from the pool, and once finished it equals the number of Commits and Aborts the pool held from pop_index_. Where each session went is stated per launch by LaunchRequests. |
| AllAtOnceExecutors.Bind | src/transaction/all-at-once-transaction-executor.cpp:61-69 | A free slot is reset for the session at start and receives the whole session; active rises by one. |
| AllAtOnceExecutors.PushSession | src/transaction/all-at-once-transaction-executor.cpp:71-91 | Every request up to and including the first closer is appended to the slot's queue, and the loop stops at that closer. |
| TransactionExecutors.FirstFree | src/transaction/runtime-transaction-executor.cpp:68-79 | Any slot found is free and at or after k. |
| RuntimeExecutors.FirstSession | src/transaction/runtime-transaction-executor.cpp:87-101 | Any slot found has the session id and is at or after k. |
| TransactionExecutors.FirstFreeIs | src/transaction/runtime-transaction-executor.cpp:68-79 | A free slot with only busy slots before it is the one found. |
| RuntimeExecutors.FirstSessionIs | src/transaction/runtime-transaction-executor.cpp:87-101 | A slot of the session with none of it before is the one found. |
| RuntimeExecutors.FirstSessionNone | src/transaction/runtime-transaction-executor.cpp:87-101 | With no slot of the session, none is found ("no session task"). |
| RuntimeExecutors.PlaceKeepsSlots | src/transaction/runtime-transaction-executor.cpp:61-111 | Placing keeps the number of slots and frees none; a Begin waits only when every slot is busy. |
| RuntimeExecutors.LaunchKeepsSlots | src/transaction/runtime-transaction-executor.cpp:46-113 | A launch keeps the number of slots and frees none. |
| RuntimeExecutors.LaunchReadsInOrder | src/transaction/runtime-transaction-executor.cpp:46-113 | A launch reads the queue from its front; what remains is a suffix. |
| RuntimeExecutors.LaunchStops | src/transaction/runtime-transaction-executor.cpp:46-113 | Without a throw, a launch ends in one of two ways: the queue is empty with nothing held, or a Begin is held while every slot is busy. |
| RuntimeExecutors.HeldBeginIsLost | src/transaction/runtime-transaction-executor.cpp:221-234 | With one slot and Begin, Commit, Begin, the second Begin is held with an empty queue. The written finished test then holds while the executor is not drained. |
| RuntimeExecutors.Place | src/transaction/runtime-transaction-executor.cpp:61-111 | One request is placed as PlaceSpec says: held (wait), thrown, or into the new slots. |
| RuntimeExecutors.RuntimeExecutor.constructor | src/transaction/runtime-transaction-executor.cpp:5-37 | Free slots, an empty queue, nothing held, no active transaction. |
| RuntimeExecutors.RuntimeExecutor.AddRequest | src/transaction/runtime-transaction-executor.cpp:39-43 | A queue with room gains the request at the end; a full queue refuses it. |
| RuntimeExecutors.RuntimeExecutor.FinishedIsIdle | src/transaction/runtime-transaction-executor.cpp:231-234 | IsFinished holds exactly when nothing is queued, no request is held and no slot is in use. It deliberately differs from the source's test, which ignores a held Begin (see Findings). |
| RuntimeExecutors.RuntimeExecutor.LaunchRequests | src/transaction/runtime-transaction-executor.cpp:46-113 | The queue, the held request, the slots and the crash flag end exactly as LaunchSpec says. |
| RuntimeExecutors.RuntimeExecutor.Advance | src/transaction/runtime-transaction-executor.cpp:115-213 | One tick per slot. Slots only go free and keep sessions and queues, and the counters rise by at most the drop in active. |
| RuntimeExecutors.RuntimeExecutor.Run | src/transaction/runtime-transaction-executor.cpp:221-229 | Unless it throws or rounds run out, it ends drained: nothing queued or held and no active transaction. "Drained" is the corrected test `RuntimeExecutors.Drained` (see Findings), not the loop condition as written at these lines. |

## Left out

- Pointers (write entry to read entry, a node to its pool slot) are slot indices. Aliasing of a slot that survives Release or Reset is not modelled.
- Recover's throw is the execution's `fatal` flag, and an executor's throws are its `crashed` flag. No recovery logic exists in the source to model.
- The handler, the transaction log and the data store are the `issued` list of calls plus externally chosen answers delivered by `Deliver`. Version-list storage, read counters and transaction-table semantics at the handler are not modelled.
- WriteToLog's completion flag, set by another thread, is an answer like any other. ENABLE_LOG (false in include/utility/configuration.h:17) and the presence of a log are constructor parameters.
- The wall clock behind LocalTimeProvider is the `now` parameter.
- The runtime executor's MPMC queue is a bounded sequence. Concurrency, blocking and the OperationRequest::Wait condition variable are left out; Notify is a flag write.
- EntryExtension blobs and the callback deserialisers are not carried.
- Hash functions are not modelled.
- Checkpoint, kickout, the versiondb handler wrappers and InsertRangeOperation (declared without implementation) are not part of this model.
- int64 overflow of timestamps, versions and counters is not modelled. Integers are unbounded except in the serialisers and in the id generator and factory, where the int64 bounds are explicit.
- Executions.TransactionExecution.Visit: at a finished operation it states only that the stack does not shrink, empty slots stay empty and the request bindings stay. Which successor takes the operation's place is not stated, for the reason given for Pass on the next line.
- Executions.TransactionExecution.Pass: states only that the stack does not shrink, empty slots stay empty and the request bindings stay. It does not state which finished slot gets which successor or where the early stop falls. Those happen in its body, and MoveForward states the outcome after them.
- Executions.TransactionExecution.NextOp: states the flags, that the node is kept and which operation follows. What each NextImpl does to the scalars, the pools and the request is stated on the Next* method it dispatches to, not repeated here.
- Executions.TransactionExecution.CallOperation: states the pushes, the calls and the cleared flag. What a CallImpl does to the scalars, the pools, the children and the request is stated on CallSetCommitTs, CallWriteToLog, ApplyWriteRule, CallDelete, CallInsert and CallParent, not repeated here.
- Executions.TransactionExecution.Call: as for CallOperation, the state changes of the CallImpl are stated on the methods it dispatches to.
- Executions.TransactionExecution.MoveForward: relates the final stack to the stack the pass left (`passed`), not to a function of the stack it started from.
- PrepareAbort and WaitForAbort are single status assignments (kAborting, kWaitForAborting) written inline at each caller.
- ExecutorSteps.Dispatch: a keyed request without a key has no defined outcome in the source. Update and Delete dereference the key in CallImpl (src/transaction/transaction-operation.cpp:1136-1138, 1187-1190). Insert and Upsert dereference it only in NextImpl (lines 1061 and 1113), after the handler has answered. Read, ReadOutside and ReadDataStore hand the null key to the handler or the driver (lines 72 and 1295). The model carries no null key into the execution and makes every such request a crash at dispatch.
- AllAtOnceExecutors.AllAtOnceExecutor.Advance: the source loops forever when no slot is active and nothing can finish; the model takes a finite sequence of handler rounds and stops when they run out.
- AllAtOnceExecutors.AllAtOnceExecutor.Run: bounded by the rounds it is given, like Advance.
- RuntimeExecutors.RuntimeExecutor.Run: bounded by the rounds it is given.
- AllAtOnceExecutors.AllAtOnceExecutor.LaunchRequests: requires that the buffered requests from pop_index_ are whole sessions, each ending in Commit or Abort. The source's inner loop would read past push_index_ otherwise.
- AllAtOnceExecutors.AllAtOnceExecutor.AddRequest: requires room in the request pool, where the source writes without a bounds check.
- LocalStates.Pool.Release: requires a positive size, because the source's size_t decrement would wrap to a huge size.
- The "not found suitable transaction" and "no empty txn task" throws cannot happen while the active count is below the slot count. The model proves a free slot exists instead of modelling those throws.
- ShutDown is empty in both executors and is not modelled.
- Keys.Equals: comparing keys of different kinds is undefined behaviour in the source, whose operator== downcasts with an unchecked static_cast. The model chooses to call such keys unequal, so Keys.EqualsIsValueEquality covers them only by that choice.
- RuntimeExecutors.RuntimeExecutor.Advance: the same bound as Sweep, whose one pass it is: commits plus aborts rise by at most the drop in active, not exactly, for the reason given on the next line.
- TransactionExecutors.TransactionExecutor.Sweep: commits plus aborts rise by at most the drop in active, not exactly. This is a limit of the model, not of the source. In the source, SetFinished follows only kCommitted (src/transaction/transaction-operation.cpp:703-704) or kAborted (lines 920-921). The model's TransactionExecution.Valid does not carry "finished implies Committed or Aborted", so a sweep cannot rule out a finished slot that neither counter counts.
- The executors' ghost `view` of the slots (in use, session, queued requests) exists only for stating contracts.
- LocalTimeProvider is followed as written. GetTime is not strictly increasing across a wall-clock refresh; TimeProviders.GetTimeNotMonotonicAcrossRefresh exhibits a case.
- PostProcessingDeleteEntryAfterAbort releases the base read entry only when that entry needs post-processing, as the source does, even though nothing in the core sets that flag on a read entry.

## Findings

| source | as written | input that shows it | evidently intended | confidence | as-written member | corrected member |
|---|---|---|---|---|---|---|
| include/versiondb/write-set-entry.h:60-67 | Serialize_Length counts the version as INT_LENGTH (4 bytes) while SerializeToBuffer writes it with INT64_T_LENGTH (8 bytes) at lines 71-72 | any entry with a record, e.g. version 0, not deleted, IntRecord 0: 17 bytes written (8 + 1 + 8), 13 counted (4 + 1 + 8) | the length counts the version at 8 bytes, so it equals what is written | not executed | WriteSetEntries.SerializeLengthUndercounts | WriteSetEntries.CorrectedSerializeLength |
| src/transaction/runtime-transaction-executor.cpp:221-234 | Run's loop and IsFinished stop when the queue is empty and no transaction is active, ignoring a Begin held in current_request_ by LaunchRequests (lines 64-67) | one slot, queue Begin(s1), Commit(s1), Begin(s2): the second Begin is held with the queue empty, and once s1 finishes Run stops without launching s2 | finished also requires that no request is held (RuntimeExecutors.Drained, which the model's Run and IsFinished use) | not executed | RuntimeExecutors.HeldBeginIsLost | RuntimeExecutors.RuntimeExecutor.FinishedIsIdle |
