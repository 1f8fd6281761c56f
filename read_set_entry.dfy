/**
 * What a transaction remembers about a version it read
 * (include/versiondb/read-set-entry.h).
 */
module ReadSetEntries {
  import opened Wrappers
  import opened Records
  import opened VersionEntries

  datatype ReadSetEntry = ReadSetEntry(
    version: int,
    txId: int,
    beginTs: int,
    endTs: int,
    isDeleted: bool,
    isUpdated: bool,
    record: Option<Record>,
    needPostProcessing: bool,
    needRelease: bool)

  /** The default constructor: sentinels, deleted, not updated, still to be released. */
  function Default(): ReadSetEntry {
    ReadSetEntry(kDefaultVersion, kEmptyTxId, kDefaultBeginTs, kDefaultEndTs, true, false, None, false, true)
  }

  /**
   * Reset (and the full constructor): every field from the arguments, the
   * three trailing flags with the source's defaults.
   */
  function Reset(version: int, txId: int, beginTs: int, endTs: int, isDeleted: bool, record: Option<Record>,
                 needPostProcessing: bool := false, needRelease: bool := true, isUpdated: bool := false): (e: ReadSetEntry)
    ensures e.version == version && e.txId == txId && e.beginTs == beginTs && e.endTs == endTs
    ensures e.isDeleted == isDeleted && e.record == record
    ensures e.needPostProcessing == needPostProcessing && e.needRelease == needRelease && e.isUpdated == isUpdated
  {
    ReadSetEntry(version, txId, beginTs, endTs, isDeleted, isUpdated, record, needPostProcessing, needRelease)
  }

  /** A Reset that leaves the trailing flags defaulted keeps the default entry's bookkeeping. */
  lemma ResetKeepsDefaultBookkeeping(version: int, txId: int, beginTs: int, endTs: int, isDeleted: bool, record: Option<Record>)
    ensures var e := Reset(version, txId, beginTs, endTs, isDeleted, record);
      e.needRelease == Default().needRelease && e.isUpdated == Default().isUpdated
      && e.needPostProcessing == Default().needPostProcessing
  {
  }

  /** Copy(): an equal entry sharing the same record. */
  function Copy(e: ReadSetEntry): (c: ReadSetEntry)
    ensures c == e
  {
    Reset(e.version, e.txId, e.beginTs, e.endTs, e.isDeleted, e.record, e.needPostProcessing, e.needRelease, e.isUpdated)
  }
}
